/** The commit protocol of the transactional store, one step per atomic access.

    A thread that commits a transaction walks the list of its dependencies.  It reads the
    status of each of them twice, waits while it is pending, reads it once more, and in the
    end writes the status of its own transaction.  A thread that aborts a transaction tests
    its status and later, when no commit of it is under way, writes it.
 */
module Transactions {

  datatype Status = Pending | Committed | Aborted

  /** Where a commit is: before the first read of dependency i, between its two reads,
      waiting for it, about to read it a last time, or about to write the outcome. */
  datatype Pc = Idle | First(i: nat) | Second(i: nat) | Waiting(i: nat) | Recheck(i: nat) | Decide | Done

  datatype Txn = Txn(status: Status, deps: seq<nat>, pc: Pc, verdict: Status)

  /** The transactions, and how many aborts of each have passed their test and not yet
      written.  The last two fields only record what happened: the positions (t, i) of
      the dependencies whose abort the commit of t overlooked, and the transactions whose
      commit was overwritten. */
  datatype State = State(txns: seq<Txn>, aborting: multiset<nat>, overlooked: set<(nat, nat)>, undone: set<nat>)

  datatype Event =
    | Create
    | Depend(t: nat, d: nat)
    | Begin(t: nat)
    | Read1(t: nat)
    | Read2(t: nat)
    | Wake(t: nat)
    | Reread(t: nat)
    | Write(t: nat)
    | AbortTest(t: nat)
    | AbortWrite(t: nat)

  const START: State := State([], multiset{}, {}, {})

  /** The position after dependency i. */
  function Onward(x: Txn, i: nat): Pc {
    if i < |x.deps| then First(i) else Decide
  }

  /** The dependency that the commit of t is looking at. */
  predicate LooksAt(s: State, t: nat, i: nat) {
    t < |s.txns| && i < |s.txns[t].deps| && s.txns[t].deps[i] < |s.txns|
  }

  predicate Enabled(s: State, e: Event) {
    match e
    case Create => true
    case Depend(t, d) => d < t < |s.txns| && s.txns[t].pc == Idle
    case Begin(t) => t < |s.txns| && s.txns[t].pc == Idle
    case Read1(t) => t < |s.txns| && s.txns[t].pc.First? && LooksAt(s, t, s.txns[t].pc.i)
    case Read2(t) => t < |s.txns| && s.txns[t].pc.Second? && LooksAt(s, t, s.txns[t].pc.i)
    case Wake(t) =>
      && t < |s.txns| && s.txns[t].pc.Waiting? && LooksAt(s, t, s.txns[t].pc.i)
      && s.txns[s.txns[t].deps[s.txns[t].pc.i]].status != Pending
    case Reread(t) => t < |s.txns| && s.txns[t].pc.Recheck? && LooksAt(s, t, s.txns[t].pc.i)
    case Write(t) => t < |s.txns| && s.txns[t].pc == Decide
    case AbortTest(t) => t < |s.txns| && s.txns[t].status == Pending
    case AbortWrite(t) => t in s.aborting && t < |s.txns| && (s.txns[t].pc == Idle || s.txns[t].pc == Done)
  }

  function Set(s: State, t: nat, x: Txn): State
    requires t < |s.txns|
  {
    s.(txns := s.txns[t := x])
  }

  function Next(s: State, e: Event): State
    requires Enabled(s, e)
  {
    match e
    case Create => s.(txns := s.txns + [Txn(Pending, [], Idle, Committed)])
    case Depend(t, d) => Set(s, t, s.txns[t].(deps := [d] + s.txns[t].deps))
    case Begin(t) => Set(s, t, s.txns[t].(pc := Onward(s.txns[t], 0), verdict := Committed))
    case Read1(t) =>
      var x := s.txns[t];
      if s.txns[x.deps[x.pc.i]].status == Aborted then Set(s, t, x.(pc := Decide, verdict := Aborted))
      else Set(s, t, x.(pc := Second(x.pc.i)))
    case Read2(t) =>
      var x := s.txns[t];
      var d := x.deps[x.pc.i];
      if s.txns[d].status == Pending then Set(s, t, x.(pc := Waiting(x.pc.i)))
      else
        var s' := Set(s, t, x.(pc := Onward(x, x.pc.i + 1)));
        if s.txns[d].status == Aborted then s'.(overlooked := s.overlooked + {(t, x.pc.i)}) else s'
    case Wake(t) => Set(s, t, s.txns[t].(pc := Recheck(s.txns[t].pc.i)))
    case Reread(t) =>
      var x := s.txns[t];
      Set(s, t, x.(pc := Onward(x, x.pc.i + 1),
                   verdict := if s.txns[x.deps[x.pc.i]].status == Aborted then Aborted else x.verdict))
    case Write(t) => Set(s, t, s.txns[t].(status := s.txns[t].verdict, pc := Done))
    case AbortTest(t) => s.(aborting := s.aborting + multiset{t})
    case AbortWrite(t) =>
      Set(s, t, s.txns[t].(status := Aborted))
        .(aborting := s.aborting - multiset{t},
          undone := if s.txns[t].status == Committed then s.undone + {t} else s.undone)
  }

  // ----- runs

  predicate Runs(s: State, es: seq<Event>)
    decreases |es|
  {
    es == [] || (Enabled(s, es[0]) && Runs(Next(s, es[0]), es[1..]))
  }

  function After(s: State, es: seq<Event>): State
    requires Runs(s, es)
    decreases |es|
  {
    if es == [] then s else After(Next(s, es[0]), es[1..])
  }

  // ----- the invariant

  /** Dependencies have smaller ids. */
  predicate Below(deps: seq<nat>, t: nat) {
    forall j :: 0 <= j < |deps| ==> deps[j] < t
  }

  /** How many dependencies the commit of x has finished with. */
  function Passed(x: Txn): nat {
    match x.pc
    case Idle => 0
    case First(i) => i
    case Second(i) => i
    case Waiting(i) => i
    case Recheck(i) => i
    case Decide => |x.deps|
    case Done => |x.deps|
  }

  ghost predicate TxnOk(s: State, t: nat)
    requires t < |s.txns|
  {
    var x := s.txns[t];
    && Below(x.deps, t)
    && (x.pc.First? || x.pc.Second? || x.pc.Waiting? || x.pc.Recheck? ==> x.pc.i < |x.deps|)
    && x.verdict != Pending
    && (x.pc == Idle ==> x.status != Committed)
    && (x.pc == Done ==> x.status != Pending)
    && (x.status == Committed ==> x.pc == Done && x.verdict == Committed)
    && (x.pc.Recheck? ==> s.txns[x.deps[x.pc.i]].status != Pending)
  }

  /** What a commit that has seen nothing wrong so far can say of a dependency it is done
      with, and what holds of it for good once the commit succeeded. */
  ghost predicate Accounted(s: State, t: nat, j: nat)
    requires LooksAt(s, t, j)
  {
    var d := s.txns[t].deps[j];
    s.txns[d].status == Committed || (t, j) in s.overlooked || d in s.undone
  }

  ghost predicate DepsOk(s: State, t: nat)
    requires t < |s.txns| && TxnOk(s, t)
  {
    var x := s.txns[t];
    x.verdict == Committed ==> forall j :: 0 <= j < Passed(x) && j < |x.deps| ==> Accounted(s, t, j)
  }

  ghost predicate Inv(s: State) {
    && (forall t {:trigger TxnOk(s, t)} :: 0 <= t < |s.txns| ==> TxnOk(s, t) && DepsOk(s, t))
    && (forall t: nat, j: nat :: (t, j) in s.overlooked ==> t < |s.txns| && s.txns[t].pc != Idle)
  }

  /** A status is never taken back to pending, and a commit is only taken back by an abort. */
  lemma Keeps(s: State, e: Event, d: nat)
    requires Inv(s) && Enabled(s, e)
    requires d < |s.txns|
    ensures d < |Next(s, e).txns|
    ensures s.txns[d].status != Pending ==> Next(s, e).txns[d].status != Pending
    ensures s.txns[d].status == Committed ==> Next(s, e).txns[d].status == Committed || d in Next(s, e).undone
  {
    assert TxnOk(s, d);
  }

  lemma TxnStep(s: State, e: Event, t: nat)
    requires Inv(s) && Enabled(s, e)
    requires t < |Next(s, e).txns|
    ensures TxnOk(Next(s, e), t)
  {
    if t < |s.txns| {
      assert TxnOk(s, t);
      if s.txns[t].pc.Recheck? {
        Keeps(s, e, s.txns[t].deps[s.txns[t].pc.i]);
      }
    }
  }

  lemma DepsStep(s: State, e: Event, t: nat)
    requires Inv(s) && Enabled(s, e)
    requires t < |Next(s, e).txns| && TxnOk(Next(s, e), t)
    ensures DepsOk(Next(s, e), t)
  {
    var s' := Next(s, e);
    if t < |s.txns| {
      assert TxnOk(s, t) && DepsOk(s, t);
      var x, x' := s.txns[t], s'.txns[t];
      if x'.verdict == Committed {
        forall j | 0 <= j < Passed(x') && j < |x'.deps|
          ensures Accounted(s', t, j)
        {
          Keeps(s, e, x'.deps[j]);
          assert j < Passed(x) && x.verdict == Committed ==> Accounted(s, t, j);
        }
      }
    }
  }

  lemma InvStep(s: State, e: Event)
    requires Inv(s) && Enabled(s, e)
    ensures Inv(Next(s, e))
  {
    hide Next, Enabled;
    forall t | 0 <= t < |Next(s, e).txns|
      ensures TxnOk(Next(s, e), t) && DepsOk(Next(s, e), t)
    {
      TxnStep(s, e, t);
      DepsStep(s, e, t);
    }
    OverlookedStep(s, e);
  }

  lemma OverlookedStep(s: State, e: Event)
    requires Inv(s) && Enabled(s, e)
    ensures var s' := Next(s, e);
            forall t: nat, j: nat :: (t, j) in s'.overlooked ==> t < |s'.txns| && s'.txns[t].pc != Idle
  {
  }

  lemma {:induction false} InvRun(s: State, es: seq<Event>)
    requires Inv(s) && Runs(s, es)
    ensures Inv(After(s, es))
    decreases |es|
  {
    if es != [] {
      InvStep(s, es[0]);
      InvRun(Next(s, es[0]), es[1..]);
    }
  }

  // ----- safety

  /** A committed transaction has only committed dependencies. */
  ghost predicate Safe(s: State) {
    forall t: nat, j: nat :: LooksAt(s, t, j) && s.txns[t].status == Committed ==>
      s.txns[s.txns[t].deps[j]].status == Committed
  }

  /** The step makes a committed transaction of one with an uncommitted dependency, or takes
      back a commit that a committed transaction depends on. */
  ghost predicate Betrays(s: State, e: Event) {
    match e
    case Write(t) =>
      t < |s.txns| && s.txns[t].verdict == Committed
      && exists j: nat :: LooksAt(s, t, j) && s.txns[s.txns[t].deps[j]].status != Committed
    case AbortWrite(d) =>
      exists t: nat, j: nat :: LooksAt(s, t, j) && s.txns[t].deps[j] == d && s.txns[t].status == Committed
    case _ => false
  }

  /** From a safe state exactly such steps lead to an unsafe one. */
  lemma SafeStep(s: State, e: Event)
    requires Inv(s) && Safe(s) && Enabled(s, e)
    ensures Safe(Next(s, e)) <==> !Betrays(s, e)
  {
    var s' := Next(s, e);
    if Betrays(s, e) {
      BetrayedStep(s, e);
    } else {
      forall t: nat, j: nat | LooksAt(s', t, j) && s'.txns[t].status == Committed
        ensures s'.txns[s'.txns[t].deps[j]].status == Committed
      {
        KeptSafe(s, e, t, j);
      }
    }
  }

  lemma BetrayedStep(s: State, e: Event)
    requires Inv(s) && Enabled(s, e) && Betrays(s, e)
    ensures !Safe(Next(s, e))
  {
    var s' := Next(s, e);
    match e {
      case Write(t) =>
        var j: nat :| LooksAt(s, t, j) && s.txns[s.txns[t].deps[j]].status != Committed;
        assert TxnOk(s, t) && LooksAt(s', t, j) && s'.txns[t].status == Committed;
      case AbortWrite(d) =>
        var t: nat, j: nat :| LooksAt(s, t, j) && s.txns[t].deps[j] == d && s.txns[t].status == Committed;
        assert TxnOk(s, t) && LooksAt(s', t, j) && s'.txns[t].status == Committed;
    }
  }

  lemma KeptSafe(s: State, e: Event, t: nat, j: nat)
    requires Inv(s) && Safe(s) && Enabled(s, e) && !Betrays(s, e)
    requires var s' := Next(s, e); LooksAt(s', t, j) && s'.txns[t].status == Committed
    ensures var s' := Next(s, e); s'.txns[s'.txns[t].deps[j]].status == Committed
  {
    var s' := Next(s, e);
    if t < |s.txns| {
      assert TxnOk(s, t);
      var d := s'.txns[t].deps[j];
      assert s'.txns[t].deps == s.txns[t].deps && LooksAt(s, t, j);
      assert d < t && TxnOk(s, d);
      if s.txns[t].status == Committed {
        assert s.txns[d].status == Committed;
        OnlyAbortsUndo(s, e, d);
      } else {
        assert e == Write(t);
      }
    }
  }

  /** The commit of t succeeds while an abort of t is between its test and its write. */
  predicate Clash(s: State, e: Event) {
    e.Write? && Enabled(s, e) && e.t in s.aborting && s.txns[e.t].verdict == Committed
  }

  ghost predicate Clashes(s: State, es: seq<Event>)
    requires Runs(s, es)
    decreases |es|
  {
    es != [] && (Clash(s, es[0]) || Clashes(Next(s, es[0]), es[1..]))
  }

  ghost predicate Settled(s: State) {
    s.undone == {} && forall t :: 0 <= t < |s.txns| && s.txns[t].status == Committed ==> t !in s.aborting
  }

  /** Without a clash no commit is ever taken back. */
  lemma {:induction false} CommitsStay(s: State, es: seq<Event>, t: nat)
    requires Inv(s) && Runs(s, es) && Settled(s)
    requires !Clashes(s, es)
    requires t < |s.txns| && s.txns[t].status == Committed
    ensures t < |After(s, es).txns| && After(s, es).txns[t].status == Committed
    ensures Settled(After(s, es))
    decreases |es|
  {
    if es != [] {
      InvStep(s, es[0]);
      SettledStep(s, es[0]);
      Keeps(s, es[0], t);
      CommitsStay(Next(s, es[0]), es[1..], t);
    }
  }

  lemma SettledStep(s: State, e: Event)
    requires Inv(s) && Enabled(s, e) && Settled(s) && !Clash(s, e)
    ensures Settled(Next(s, e))
  {
    var s' := Next(s, e);
    forall t | 0 <= t < |s'.txns| && s'.txns[t].status == Committed
      ensures t !in s'.aborting
    {
      if t < |s.txns| {
        assert TxnOk(s, t);
      }
    }
  }

  /** After a clash the suspended abort can go ahead at once, and takes the commit back. */
  lemma ClashUndoes(s: State, e: Event)
    requires Inv(s) && Clash(s, e)
    ensures var s1 := Next(s, e);
            && s1.txns[e.t].status == Committed
            && Enabled(s1, AbortWrite(e.t))
            && Next(s1, AbortWrite(e.t)).txns[e.t].status == Aborted
  {
  }

  /** A commit is taken back by no other step than the write of an abort. */
  lemma OnlyAbortsUndo(s: State, e: Event, t: nat)
    requires Inv(s) && Enabled(s, e)
    requires t < |s.txns| && s.txns[t].status == Committed
    ensures Next(s, e).txns[t].status != Committed <==> e == AbortWrite(t)
  {
    assert TxnOk(s, t);
  }

  /** A commit that no waiting abort threatens is for good. */
  lemma {:induction false} CommitIsFinal(s: State, es: seq<Event>, t: nat)
    requires Inv(s) && Runs(s, es) && t < |s.txns| && s.txns[t].status == Committed && t !in s.aborting
    ensures t < |After(s, es).txns| && After(s, es).txns[t].status == Committed
    decreases |es|
  {
    if es != [] {
      InvStep(s, es[0]);
      OnlyAbortsUndo(s, es[0], t);
      assert TxnOk(s, t);
      CommitIsFinal(Next(s, es[0]), es[1..], t);
    }
  }

  ghost predicate CanBeUndone(s: State, t: nat) {
    exists es :: Runs(s, es) && Undoes(s, es, t)
  }

  predicate Undoes(s: State, es: seq<Event>, t: nat)
    requires Runs(s, es)
  {
    t < |After(s, es).txns| && After(s, es).txns[t].status != Committed
  }

  /** A commit can be taken back by some continuation if and only if an abort of the same
      transaction has passed its test and not yet written. */
  lemma UndoneExactly(s: State, t: nat)
    requires Inv(s) && t < |s.txns| && s.txns[t].status == Committed
    ensures CanBeUndone(s, t) <==> t in s.aborting
  {
    if t in s.aborting {
      assert TxnOk(s, t);
      var e := AbortWrite(t);
      assert Enabled(s, e);
      RunsNothing(Next(s, e));
      Unroll(s, [e], e, []);
      assert Undoes(s, [e], t);
    } else {
      forall es | Runs(s, es)
        ensures !Undoes(s, es, t)
      {
        CommitIsFinal(s, es, t);
      }
    }
  }

  // ----- dependencies as they were declared

  /** The dependencies that the events of es declare for t, the last one first. */
  function Declared(es: seq<Event>, t: nat): seq<nat> {
    if es == [] then []
    else Declared(es[1..], t) + DeclaredBy(es[0], t)
  }

  lemma {:induction false} DeclaredIs(es: seq<Event>, t: nat, d: nat)
    ensures d in Declared(es, t) <==> Depend(t, d) in es
  {
    if es != [] {
      DeclaredIs(es[1..], t, d);
      assert es == [es[0]] + es[1..];
    }
  }

  function DeclaredBy(e: Event, t: nat): seq<nat> {
    if e.Depend? && e.t == t then [e.d] else []
  }

  /** No step changes the dependencies of t, but for a new one that it puts in front. */
  lemma DepsNext(s: State, e: Event, t: nat)
    requires Enabled(s, e)
    ensures |s.txns| <= |Next(s, e).txns|
    ensures t < |s.txns| ==> Next(s, e).txns[t].deps == DeclaredBy(e, t) + s.txns[t].deps
    ensures |s.txns| <= t < |Next(s, e).txns| ==> Next(s, e).txns[t].deps == [] && DeclaredBy(e, t) == []
  {
  }

  lemma {:induction false} DepsKept(s: State, es: seq<Event>, t: nat)
    requires Runs(s, es) && t < |After(s, es).txns|
    ensures After(s, es).txns[t].deps == Declared(es, t) + (if t < |s.txns| then s.txns[t].deps else [])
    ensures |s.txns| <= |After(s, es).txns|
    decreases |es|
  {
    hide Enabled, Next;
    if es != [] {
      DepsNext(s, es[0], t);
      DepsKept(Next(s, es[0]), es[1..], t);
      if |Next(s, es[0]).txns| <= t {
        NotBefore(s, es[0], t);
      }
    }
  }

  lemma NotBefore(s: State, e: Event, t: nat)
    requires Enabled(s, e) && |Next(s, e).txns| <= t
    ensures DeclaredBy(e, t) == []
  {
  }

  /** After every run the dependencies of a transaction are exactly those that were declared
      for it, the last one first. */
  lemma DepsAreDeclared(es: seq<Event>, t: nat)
    requires Runs(START, es) && t < |After(START, es).txns|
    ensures After(START, es).txns[t].deps == Declared(es, t)
    ensures forall d: nat :: d in After(START, es).txns[t].deps <==> Depend(t, d) in es
  {
    DepsKept(START, es, t);
    forall d: nat
      ensures d in Declared(es, t) <==> Depend(t, d) in es
    {
      DeclaredIs(es, t, d);
    }
  }

  /** The order: a dependency declared later stands before one declared earlier. */
  lemma {:induction false} LaterFirst(es: seq<Event>, t: nat, i: nat, j: nat) returns (p: nat, q: nat)
    requires i < j < |es| && es[i].Depend? && es[i].t == t && es[j].Depend? && es[j].t == t
    ensures p < q < |Declared(es, t)| && Declared(es, t)[p] == es[j].d && Declared(es, t)[q] == es[i].d
    decreases |es|
  {
    if i == 0 {
      p := PlaceOf(es[1..], t, j - 1);
      q := |Declared(es[1..], t)|;
    } else {
      p, q := LaterFirst(es[1..], t, i - 1, j - 1);
    }
  }

  lemma {:induction false} PlaceOf(es: seq<Event>, t: nat, j: nat) returns (p: nat)
    requires j < |es| && es[j].Depend? && es[j].t == t
    ensures p < |Declared(es, t)| && Declared(es, t)[p] == es[j].d
    decreases |es|
  {
    if j == 0 {
      p := |Declared(es[1..], t)|;
    } else {
      p := PlaceOf(es[1..], t, j - 1);
    }
  }

  /** The dependency is a transaction, and the position of it is one that a commit looks at. */
  lemma DeclaredLooks(es: seq<Event>, t: nat, d: nat) returns (j: nat)
    requires Runs(START, es) && Depend(t, d) in es
    ensures var s := After(START, es); LooksAt(s, t, j) && s.txns[t].deps[j] == d
  {
    InvRun(START, es);
    DeclaredExists(START, es, t, d);
    DepsAreDeclared(es, t);
    var s := After(START, es);
    assert TxnOk(s, t);
    j :| 0 <= j < |s.txns[t].deps| && s.txns[t].deps[j] == d;
  }

  lemma {:induction false} DeclaredExists(s: State, es: seq<Event>, t: nat, d: nat)
    requires Runs(s, es) && Depend(t, d) in es
    ensures t < |After(s, es).txns|
    decreases |es|
  {
    if es[0] == Depend(t, d) {
      NeverFewer(Next(s, es[0]), es[1..]);
    } else {
      DeclaredExists(Next(s, es[0]), es[1..], t, d);
    }
  }

  lemma {:induction false} NeverFewer(s: State, es: seq<Event>)
    requires Runs(s, es)
    ensures |s.txns| <= |After(s, es).txns|
    decreases |es|
  {
    if es != [] {
      NeverFewer(Next(s, es[0]), es[1..]);
    }
  }

  // ----- schedules that are safe

  /** The two reads of a dependency follow each other without a step in between. */
  predicate Tight(es: seq<Event>) {
    forall i :: 0 <= i < |es| && es[i].Read2? ==> 0 < i && es[i - 1] == Read1(es[i].t)
  }

  lemma ReadTogether(s: State, t: nat)
    requires Enabled(s, Read1(t)) && Enabled(Next(s, Read1(t)), Read2(t))
    ensures Next(Next(s, Read1(t)), Read2(t)).overlooked == s.overlooked
  {
  }

  lemma {:induction false} TightOverlooksNothing(s: State, es: seq<Event>)
    requires Runs(s, es) && Tight(es)
    ensures After(s, es).overlooked == s.overlooked
    decreases |es|
  {
    if es != [] {
      var s1 := Next(s, es[0]);
      if 2 <= |es| && es[1].Read2? {
        var rest := es[1..][1..];
        assert rest == es[2..];
        assert es[1] == es[1..][0];
        ReadTogether(s, es[1].t);
        assert Tight(rest) by {
          forall i | 0 <= i < |rest| && rest[i].Read2?
            ensures 0 < i && rest[i - 1] == Read1(rest[i].t)
          {
            assert rest[i] == es[i + 2] && es[i + 1] == Read1(es[i + 2].t);
          }
        }
        TightOverlooksNothing(Next(s1, es[1]), rest);
      } else {
        assert Tight(es[1..]) by {
          forall i | 0 <= i < |es[1..]| && es[1..][i].Read2?
            ensures 0 < i && es[1..][i - 1] == Read1(es[1..][i].t)
          {
            assert es[1..][i] == es[i + 1] && es[i] == Read1(es[i + 1].t);
          }
        }
        TightOverlooksNothing(s1, es[1..]);
      }
    }
  }

  lemma {:induction false} SettledRun(s: State, es: seq<Event>)
    requires Inv(s) && Runs(s, es) && Settled(s) && !Clashes(s, es)
    ensures Settled(After(s, es))
    decreases |es|
  {
    if es != [] {
      InvStep(s, es[0]);
      SettledStep(s, es[0]);
      SettledRun(Next(s, es[0]), es[1..]);
    }
  }

  /** In every reachable state of every interleaving, an uncommitted dependency of a
      committed transaction is one whose abort the commit overlooked between its two reads,
      or one whose own commit was overwritten by a late abort. */
  lemma SafetyOfRuns(es: seq<Event>)
    requires Runs(START, es)
    ensures var s := After(START, es);
            forall t: nat, j: nat :: LooksAt(s, t, j) && s.txns[t].status == Committed ==> Accounted(s, t, j)
    ensures Tight(es) && !Clashes(START, es) ==> Safe(After(START, es))
  {
    InvRun(START, es);
    var s := After(START, es);
    forall t: nat, j: nat | LooksAt(s, t, j) && s.txns[t].status == Committed
      ensures Accounted(s, t, j)
    {
      assert TxnOk(s, t) && DepsOk(s, t);
    }
    if Tight(es) && !Clashes(START, es) {
      TightOverlooksNothing(START, es);
      SettledRun(START, es);
    }
  }

  // ----- runs that go wrong

  ghost predicate Goes(s: State, e: Event, s': State) {
    Enabled(s, e) && Next(s, e) == s'
  }

  /** The events of es lead from the start to s, with a clash or without. */
  ghost predicate Leads(es: seq<Event>, s: State, clash: bool) {
    Runs(START, es) && After(START, es) == s && Clashes(START, es) == clash
  }

  lemma {:induction false} RunsOn(s: State, es: seq<Event>, e: Event)
    requires Runs(s, es) && Enabled(After(s, es), e)
    ensures Runs(s, es + [e]) && After(s, es + [e]) == Next(After(s, es), e)
    ensures Clashes(s, es + [e]) <==> Clashes(s, es) || Clash(After(s, es), e)
    decreases |es|
  {
    hide Enabled, Next, Clash;
    if es == [] {
      assert [] + [e] == [e] && [e][1..] == [];
      RunsNothing(Next(s, e));
    } else {
      assert (es + [e])[1..] == es[1..] + [e];
      RunsOn(Next(s, es[0]), es[1..], e);
    }
  }

  lemma Onto(es: seq<Event>, s: State, clash: bool, e: Event, s': State) returns (es': seq<Event>)
    requires Leads(es, s, clash) && Goes(s, e, s')
    ensures es' == es + [e] && Leads(es', s', clash || Clash(s, e))
  {
    RunsOn(START, es, e);
    es' := es + [e];
  }

  lemma Outset() returns (es: seq<Event>)
    ensures es == [] && Leads(es, START, false)
  {
    es := [];
  }

  function Alone(x: Txn, aborting: multiset<nat>, undone: set<nat>): State {
    State([x], aborting, {}, undone)
  }

  /** A clash happens: transaction 0 is aborted while its commit is under way. */
  lemma ClashHappens()
    ensures var es := [Create, Begin(0), AbortTest(0), Write(0)];
            Runs(START, es) && After(START, es).txns == [Txn(Committed, [], Done, Committed)]
    ensures var es := [Create, Begin(0), AbortTest(0), Write(0), AbortWrite(0)];
            Runs(START, es) && After(START, es).txns == [Txn(Aborted, [], Done, Committed)]
  {
    hide Enabled, Next, Runs, After, Clashes;
    var s1, s2, s3, s4, s5 := ClashSteps();
    var es := Outset();
    es := Onto(es, START, false, Create, s1);
    es := Onto(es, s1, Clash(START, Create), Begin(0), s2);
    es := Onto(es, s2, Clash(START, Create) || Clash(s1, Begin(0)), AbortTest(0), s3);
    var clash := Clash(START, Create) || Clash(s1, Begin(0)) || Clash(s2, AbortTest(0));
    es := Onto(es, s3, clash, Write(0), s4);
    assert es == [Create, Begin(0), AbortTest(0), Write(0)];
    es := Onto(es, s4, clash || Clash(s3, Write(0)), AbortWrite(0), s5);
    assert es == [Create, Begin(0), AbortTest(0), Write(0), AbortWrite(0)];
  }

  lemma ClashSteps() returns (s1: State, s2: State, s3: State, s4: State, s5: State)
    ensures Goes(START, Create, s1) && Goes(s1, Begin(0), s2) && Goes(s2, AbortTest(0), s3)
    ensures Goes(s3, Write(0), s4) && Goes(s4, AbortWrite(0), s5)
    ensures s4.txns == [Txn(Committed, [], Done, Committed)] && s5.txns == [Txn(Aborted, [], Done, Committed)]
  {
    s1 := Alone(Txn(Pending, [], Idle, Committed), multiset{}, {});
    s2 := Alone(Txn(Pending, [], Decide, Committed), multiset{}, {});
    s3 := Alone(Txn(Pending, [], Decide, Committed), multiset{0}, {});
    s4 := Alone(Txn(Committed, [], Done, Committed), multiset{0}, {});
    s5 := Alone(Txn(Aborted, [], Done, Committed), multiset{}, {0});
  }

  /** Two transactions, of which 1 depends on 0. */
  function Pair(status0: Status, pc0: Pc, status1: Status, pc1: Pc, aborting: multiset<nat>,
                overlooked: set<(nat, nat)>, undone: set<nat>): State {
    State([Txn(status0, [], pc0, Committed), Txn(status1, [0], pc1, Committed)], aborting, overlooked, undone)
  }

  const LATE_ABORT: seq<Event> :=
    [Create, Create, Depend(1, 0), Begin(0), AbortTest(0), Write(0)] +
        [Begin(1), Read1(1), Read2(1), Write(1), AbortWrite(0)]

  const INTERRUPTED: seq<Event> :=
    [Create, Create, Depend(1, 0), Begin(1), Read1(1)] + [AbortTest(0), AbortWrite(0), Read2(1), Write(1)]

  /** The same in terms of the events: in an uninterrupted run without clashes, a committed
      transaction has only committed dependencies among all that were declared for it. */
  lemma SafetyOfDeclarations(es: seq<Event>, t: nat, d: nat)
    requires Runs(START, es) && Tight(es) && !Clashes(START, es) && Depend(t, d) in es
    ensures t < |After(START, es).txns| && d < |After(START, es).txns|
    ensures After(START, es).txns[t].status == Committed ==> After(START, es).txns[d].status == Committed
  {
    SafetyOfRuns(es);
    var j := DeclaredLooks(es, t, d);
  }

  /** Neither condition can be spared: an uninterrupted schedule with a clash, and one without
      a clash that is interrupted, each with a committed transaction whose dependency is
      aborted. */
  lemma BothConditionsCount()
    ensures Runs(START, LATE_ABORT) && Tight(LATE_ABORT) && !Safe(After(START, LATE_ABORT))
    ensures Runs(START, INTERRUPTED) && !Clashes(START, INTERRUPTED) && !Safe(After(START, INTERRUPTED))
  {
    hide Next, Enabled, Runs, After, Clashes;
    LateAbort();
    Interrupted();
    assert LooksAt(After(START, LATE_ABORT), 1, 0) && LooksAt(After(START, INTERRUPTED), 1, 0);
  }

  lemma FirstSteps() returns (es: seq<Event>)
    ensures es == [Create, Create, Depend(1, 0)]
    ensures Leads(es, Pair(Pending, Idle, Pending, Idle, multiset{}, {}, {}), false)
  {
    hide Runs, After, Clashes;
    var x := Txn(Pending, [], Idle, Committed);
    var s1, s2, s3 := Alone(x, multiset{}, {}), State([x, x], multiset{}, {}, {}),
        Pair(Pending, Idle, Pending, Idle, multiset{}, {}, {});
    es := Outset();
    es := Onto(es, START, false, Create, s1);
    es := Onto(es, s1, false, Create, s2);
    assert [0] + x.deps == [0];
    es := Onto(es, s2, false, Depend(1, 0), s3);
  }

  lemma LateAbort()
    ensures Runs(START, LATE_ABORT)
    ensures After(START, LATE_ABORT).txns == [Txn(Aborted, [], Done, Committed), Txn(Committed, [0], Done, Committed)]
  {
    hide Runs, After, Clashes, Enabled, Next, Clash, Pair;
    var es := FirstSteps();
    var s3 := Pair(Pending, Idle, Pending, Idle, multiset{}, {}, {});
    var s6, clash := CommitFirst(es, s3);
    es := es + [Begin(0), AbortTest(0), Write(0)];
    var s8, clash' := CommitSecond(es, s6, clash);
    es := es + [Begin(1), Read1(1), Read2(1)];
    var clash'' := WriteBoth(es, s8, clash');
    assert LATE_ABORT == es + [Write(1), AbortWrite(0)];
  }

  lemma CommitFirst(es: seq<Event>, s: State) returns (s': State, clash: bool)
    requires s == Pair(Pending, Idle, Pending, Idle, multiset{}, {}, {}) && Leads(es, s, false)
    ensures s' == Pair(Committed, Done, Pending, Idle, multiset{0}, {}, {})
    ensures Leads(es + [Begin(0), AbortTest(0), Write(0)], s', clash)
  {
    hide Runs, After, Clashes;
    var s4 := Pair(Pending, Decide, Pending, Idle, multiset{}, {}, {});
    var s5 := Pair(Pending, Decide, Pending, Idle, multiset{0}, {}, {});
    s' := Pair(Committed, Done, Pending, Idle, multiset{0}, {}, {});
    var es4 := Onto(es, s, false, Begin(0), s4);
    var es5 := Onto(es4, s4, false, AbortTest(0), s5);
    var es6 := Onto(es5, s5, false, Write(0), s');
    clash := Clash(s5, Write(0));
    assert es6 == es + [Begin(0), AbortTest(0), Write(0)];
  }

  lemma CommitSecond(es: seq<Event>, s: State, clash: bool) returns (s': State, clash': bool)
    requires s == Pair(Committed, Done, Pending, Idle, multiset{0}, {}, {}) && Leads(es, s, clash)
    ensures s' == Pair(Committed, Done, Pending, Decide, multiset{0}, {}, {})
    ensures Leads(es + [Begin(1), Read1(1), Read2(1)], s', clash')
  {
    hide Runs, After, Clashes;
    var s7 := Pair(Committed, Done, Pending, First(0), multiset{0}, {}, {});
    var s8 := Pair(Committed, Done, Pending, Second(0), multiset{0}, {}, {});
    s' := Pair(Committed, Done, Pending, Decide, multiset{0}, {}, {});
    var es7 := Onto(es, s, clash, Begin(1), s7);
    var es8 := Onto(es7, s7, clash, Read1(1), s8);
    var es9 := Onto(es8, s8, clash, Read2(1), s');
    clash' := clash;
    assert es9 == es + [Begin(1), Read1(1), Read2(1)];
  }

  lemma WriteBoth(es: seq<Event>, s: State, clash: bool) returns (clash': bool)
    requires s == Pair(Committed, Done, Pending, Decide, multiset{0}, {}, {}) && Leads(es, s, clash)
    ensures Leads(es + [Write(1), AbortWrite(0)], Pair(Aborted, Done, Committed, Done, multiset{}, {}, {0}), clash')
    ensures Pair(Aborted, Done, Committed, Done, multiset{}, {}, {0}).txns ==
            [Txn(Aborted, [], Done, Committed), Txn(Committed, [0], Done, Committed)]
  {
    hide Runs, After, Clashes;
    var s10 := Pair(Committed, Done, Committed, Done, multiset{0}, {}, {});
    var s11 := Pair(Aborted, Done, Committed, Done, multiset{}, {}, {0});
    var es10 := Onto(es, s, clash, Write(1), s10);
    var es11 := Onto(es10, s10, clash || Clash(s, Write(1)), AbortWrite(0), s11);
    clash' := clash || Clash(s, Write(1)) || Clash(s10, AbortWrite(0));
    assert es11 == es + [Write(1), AbortWrite(0)];
  }

  lemma Interrupted()
    ensures Runs(START, INTERRUPTED) && !Clashes(START, INTERRUPTED)
    ensures After(START, INTERRUPTED).txns == [Txn(Aborted, [], Idle, Committed), Txn(Committed, [0], Done, Committed)]
  {
    hide Runs, After, Clashes, Enabled, Next, Clash, Pair;
    var es := FirstSteps();
    var s6 := AbortBetween(es, Pair(Pending, Idle, Pending, Idle, multiset{}, {}, {}));
    es := es + [Begin(1), Read1(1), AbortTest(0)];
    Overlook(es, s6);
    assert INTERRUPTED == es + [AbortWrite(0), Read2(1), Write(1)];
  }

  lemma AbortBetween(es: seq<Event>, s: State) returns (s': State)
    requires s == Pair(Pending, Idle, Pending, Idle, multiset{}, {}, {}) && Leads(es, s, false)
    ensures s' == Pair(Pending, Idle, Pending, Second(0), multiset{0}, {}, {})
    ensures Leads(es + [Begin(1), Read1(1), AbortTest(0)], s', false)
  {
    hide Runs, After, Clashes;
    var s4 := Pair(Pending, Idle, Pending, First(0), multiset{}, {}, {});
    var s5 := Pair(Pending, Idle, Pending, Second(0), multiset{}, {}, {});
    s' := Pair(Pending, Idle, Pending, Second(0), multiset{0}, {}, {});
    var es4 := Onto(es, s, false, Begin(1), s4);
    var es5 := Onto(es4, s4, false, Read1(1), s5);
    var es6 := Onto(es5, s5, false, AbortTest(0), s');
    assert es6 == es + [Begin(1), Read1(1), AbortTest(0)];
  }

  lemma Overlook(es: seq<Event>, s: State)
    requires s == Pair(Pending, Idle, Pending, Second(0), multiset{0}, {}, {}) && Leads(es, s, false)
    ensures Leads(es + [AbortWrite(0), Read2(1), Write(1)],
            Pair(Aborted, Idle, Committed, Done, multiset{}, {(1, 0)}, {}), false)
    ensures Pair(Aborted, Idle, Committed, Done, multiset{}, {(1, 0)}, {}).txns ==
            [Txn(Aborted, [], Idle, Committed), Txn(Committed, [0], Done, Committed)]
  {
    hide Runs, After, Clashes;
    var s7 := Pair(Aborted, Idle, Pending, Second(0), multiset{}, {}, {});
    var s8 := Pair(Aborted, Idle, Pending, Decide, multiset{}, {(1, 0)}, {});
    var s9 := Pair(Aborted, Idle, Committed, Done, multiset{}, {(1, 0)}, {});
    var es7 := Onto(es, s, false, AbortWrite(0), s7);
    var es8 := Onto(es7, s7, false, Read2(1), s8);
    var es9 := Onto(es8, s8, false, Write(1), s9);
    assert es9 == es + [AbortWrite(0), Read2(1), Write(1)];
  }

  lemma RunsNothing(s: State)
    ensures Runs(s, []) && After(s, []) == s
  {
  }

  lemma Unroll(s: State, es: seq<Event>, e: Event, rest: seq<Event>)
    requires es == [e] + rest
    requires Enabled(s, e) && Runs(Next(s, e), rest)
    ensures Runs(s, es) && After(s, es) == After(Next(s, e), rest)
  {
    assert es[1..] == rest;
  }
}
