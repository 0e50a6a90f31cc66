/** The recursion of `trans_abort`, run without interference.

    It follows the dependencies of the aborted transaction, not its dependents, and ends the
    program when it comes to a committed one.
 */
module TransactionAbort {
  import opened Transactions

  ghost predicate Grounded(deps: seq<seq<nat>>) {
    forall t :: 0 <= t < |deps| ==> Below(deps[t], t)
  }

  /** The abort of t looks at u: it is t, or a dependency of a pending transaction that the
      abort looks at. */
  ghost predicate Visits(status: seq<Status>, deps: seq<seq<nat>>, t: nat, u: nat)
    requires Grounded(deps) && |deps| == |status|
    decreases t
  {
    && t < |status|
    && (u == t || (status[t] == Pending && exists j :: 0 <= j < |deps[t]| && Visits(status, deps, deps[t][j], u)))
  }

  /** The abort of t ends the program. */
  ghost predicate Fatal(status: seq<Status>, deps: seq<seq<nat>>, t: nat)
    requires Grounded(deps) && |deps| == |status|
  {
    exists u :: 0 <= u < |status| && status[u] == Committed && Visits(status, deps, t, u)
  }

  /** Everything pending that the abort of t looks at is aborted, and nothing else changes. */
  ghost predicate Cascaded(status: seq<Status>, deps: seq<seq<nat>>, t: nat, status': seq<Status>)
    requires Grounded(deps) && |deps| == |status|
  {
    && |status'| == |status|
    && forall u :: 0 <= u < |status| ==>
         status'[u] == if status[u] == Pending && Visits(status, deps, t, u) then Aborted else status[u]
  }

  /** The transactions in done were pending and are aborted now, and the abort has been
      through all that they depend on. */
  ghost predicate Marked(status: seq<Status>, deps: seq<seq<nat>>, done: set<nat>, status': seq<Status>)
    requires |deps| == |status|
  {
    && |status'| == |status|
    && (forall u :: 0 <= u < |status| ==> status'[u] == if u in done then Aborted else status[u])
    && (forall u :: u in done ==> u < |status| && status[u] == Pending)
    && forall u, j :: u in done && 0 <= j < |deps[u]| ==>
        deps[u][j] < |status| && (deps[u][j] in done || status[deps[u][j]] == Aborted)
  }

  /** What the abort of t would look at does not lead out of done. */
  lemma {:induction false} DoneIsClosed(status: seq<Status>, deps: seq<seq<nat>>, done: set<nat>, status': seq<Status>,
                                        t: nat, u: nat)
    requires Grounded(deps) && |deps| == |status| && Marked(status, deps, done, status')
    requires t in done && Visits(status, deps, t, u)
    ensures u in done || (u < |status| && status[u] == Aborted)
    decreases t
  {
    if u != t {
      var j :| 0 <= j < |deps[t]| && Visits(status, deps, deps[t][j], u);
      if deps[t][j] in done {
        DoneIsClosed(status, deps, done, status', deps[t][j], u);
      }
    }
  }

  /** Starting from a state in which done is marked already, the abort of t looks at the same
      transactions as from the original one, up to those in done and aborted ones. */
  lemma {:induction false} VisitsMarked(status: seq<Status>, deps: seq<seq<nat>>, done: set<nat>, status': seq<Status>,
                                        t: nat, u: nat)
    requires Grounded(deps) && |deps| == |status| && Marked(status, deps, done, status')
    requires t < |status|
    ensures Visits(status', deps, t, u) ==> Visits(status, deps, t, u)
    ensures Visits(status, deps, t, u) && u !in done && u < |status| && status[u] != Aborted ==>
              Visits(status', deps, t, u)
    decreases t
  {
    if u != t {
      forall j | 0 <= j < |deps[t]|
        ensures Visits(status', deps, deps[t][j], u) ==> Visits(status, deps, deps[t][j], u)
        ensures Visits(status, deps, deps[t][j], u) && u !in done && u < |status| && status[u] != Aborted ==>
                  Visits(status', deps, deps[t][j], u)
      {
        VisitsMarked(status, deps, done, status', deps[t][j], u);
      }
      if t in done && Visits(status, deps, t, u) {
        DoneIsClosed(status, deps, done, status', t, u);
      }
    }
  }

  /** What the abort of d looks at has ids up to d, and depends on the statuses of those. */
  lemma {:induction false} VisitsBelow(status: seq<Status>, status': seq<Status>, deps: seq<seq<nat>>, d: nat, u: nat)
    requires Grounded(deps) && |deps| == |status| == |status'|
    requires forall v :: 0 <= v <= d && v < |status| ==> status'[v] == status[v]
    ensures Visits(status, deps, d, u) ==> u <= d && Visits(status', deps, d, u)
    decreases d
  {
    if Visits(status, deps, d, u) && u != d {
      var j :| 0 <= j < |deps[d]| && Visits(status, deps, deps[d][j], u);
      VisitsBelow(status, status', deps, deps[d][j], u);
    }
  }

  lemma {:induction false} VisitsDeps(status: seq<Status>, deps: seq<seq<nat>>, t: nat, u: nat, j: nat)
    requires Grounded(deps) && |deps| == |status|
    requires u < |status| && Visits(status, deps, t, u) && status[u] == Pending && j < |deps[u]|
    ensures Visits(status, deps, t, deps[u][j])
    decreases t
  {
    if u == t {
      assert Visits(status, deps, deps[u][j], deps[u][j]);
    } else {
      var k :| 0 <= k < |deps[t]| && Visits(status, deps, deps[t][k], u);
      VisitsDeps(status, deps, deps[t][k], u, j);
    }
  }

  ghost function Found(status: seq<Status>, deps: seq<seq<nat>>, d: nat): set<nat>
    requires Grounded(deps) && |deps| == |status|
  {
    set u | 0 <= u < |status| && status[u] == Pending && Visits(status, deps, d, u)
  }

  /** The abort of one more dependency marks what it found. */
  lemma MarksMore(before: seq<Status>, deps: seq<seq<nat>>, done: set<nat>, mid: seq<Status>, d: nat,
                  after: seq<Status>)
    requires Grounded(deps) && |deps| == |before|
    requires Marked(before, deps, done, mid)
    requires d < |before| && !Fatal(mid, deps, d) && Cascaded(mid, deps, d, after)
    ensures Marked(before, deps, done + Found(mid, deps, d), after)
    ensures before[d] != Committed && (before[d] == Pending ==> d in done + Found(mid, deps, d))
  {
    var more := Found(mid, deps, d);
    assert Visits(mid, deps, d, d);
    forall u, j | u in more && 0 <= j < |deps[u]|
      ensures deps[u][j] < |before| && (deps[u][j] in done + more || before[deps[u][j]] == Aborted)
    {
      VisitsDeps(mid, deps, d, u, j);
    }
  }

  /** Once all dependencies are dealt with, done is what the abort of t looks at. */
  lemma AllMarked(before: seq<Status>, deps: seq<seq<nat>>, done: set<nat>, mid: seq<Status>, t: nat)
    requires Grounded(deps) && |deps| == |before| && Marked(before, deps, done, mid)
    requires t < |before| && before[t] == Pending && t !in done
    requires forall j :: 0 <= j < |deps[t]| ==>
               before[deps[t][j]] != Committed && (before[deps[t][j]] == Pending ==> deps[t][j] in done)
    requires forall u :: u in done ==> exists j :: 0 <= j < |deps[t]| && Visits(before, deps, deps[t][j], u)
    ensures !Fatal(before, deps, t)
    ensures Cascaded(before, deps, t, mid[t := Aborted])
  {
    forall u: nat | Visits(before, deps, t, u) && u != t
      ensures u in done || (u < |before| && before[u] == Aborted)
    {
      var j :| 0 <= j < |deps[t]| && Visits(before, deps, deps[t][j], u);
      if deps[t][j] in done {
        DoneIsClosed(before, deps, done, mid, deps[t][j], u);
      }
    }
  }

  /** The abort of t has been through its first i dependencies, and marked done. */
  ghost predicate Progress(before: seq<Status>, deps: seq<seq<nat>>, t: nat, i: nat, done: set<nat>, now: seq<Status>)
    requires Grounded(deps) && |deps| == |before| && t < |before| && i <= |deps[t]|
  {
    && |now| == |before| && before[t] == Pending && now[t] == Aborted
    && (forall u :: u in done ==> u < t)
    && Marked(before, deps, done, now[t := Pending])
    && (forall j :: 0 <= j < i ==>
        before[deps[t][j]] != Committed && (before[deps[t][j]] == Pending ==> deps[t][j] in done))
    && forall u :: u in done ==> exists j :: 0 <= j < i && Visits(before, deps, deps[t][j], u)
  }

  lemma AbortStep(before: seq<Status>, deps: seq<seq<nat>>, done: set<nat>, now: seq<Status>, t: nat, d: nat, u: nat)
    requires Grounded(deps) && |deps| == |before| == |now|
    requires t < |before| && Marked(before, deps, done, now[t := Pending])
    requires d < t
    ensures Visits(now, deps, d, u) ==> Visits(now[t := Pending], deps, d, u) && Visits(before, deps, d, u) && u < t
    ensures Visits(now[t := Pending], deps, d, u) ==> Visits(now, deps, d, u)
  {
    VisitsBelow(now, now[t := Pending], deps, d, u);
    VisitsBelow(now[t := Pending], now, deps, d, u);
    VisitsMarked(before, deps, done, now[t := Pending], d, u);
  }

  lemma ProgressFatal(before: seq<Status>, deps: seq<seq<nat>>, t: nat, i: nat, done: set<nat>, now: seq<Status>)
    requires Grounded(deps) && |deps| == |before| && t < |before| && i < |deps[t]|
    requires Progress(before, deps, t, i, done, now)
    requires Fatal(now, deps, deps[t][i])
    ensures Fatal(before, deps, t)
  {
    var u :| 0 <= u < |now| && now[u] == Committed && Visits(now, deps, deps[t][i], u);
    AbortStep(before, deps, done, now, t, deps[t][i], u);
    assert now[t := Pending][u] == Committed;
    assert Visits(before, deps, t, u);
  }

  lemma ProgressStep(before: seq<Status>, deps: seq<seq<nat>>, t: nat, i: nat, done: set<nat>, now: seq<Status>,
                     after: seq<Status>)
      returns (done': set<nat>)
    requires Grounded(deps) && |deps| == |before| && t < |before| && i < |deps[t]|
    requires Progress(before, deps, t, i, done, now)
    requires !Fatal(now, deps, deps[t][i]) && Cascaded(now, deps, deps[t][i], after)
    ensures Progress(before, deps, t, i + 1, done', after)
  {
    hide Visits;
    var d, mid := deps[t][i], now[t := Pending];
    forall u: nat
      ensures Visits(now, deps, d, u) ==> Visits(mid, deps, d, u) && Visits(before, deps, d, u) && u < t
      ensures Visits(mid, deps, d, u) ==> Visits(now, deps, d, u)
    {
      AbortStep(before, deps, done, now, t, d, u);
    }
    MarksMore(before, deps, done, mid, d, after[t := Pending]);
    done' := done + Found(mid, deps, d);
  }

  class Table {
    var status: seq<Status>
    var deps: seq<seq<nat>>

    ghost predicate Valid()
      reads this
    {
      |deps| == |status| && Grounded(deps)
    }

    constructor ()
      ensures Valid() && status == []
    {
      status, deps := [], [];
    }

    method Create() returns (t: nat)
      requires Valid()
      modifies this
      ensures Valid()
      ensures t == |old(status)| && status == old(status) + [Pending] && deps == old(deps) + [[]]
    {
      t := |status|;
      status, deps := status + [Pending], deps + [[]];
    }

    method AddDependency(t: nat, d: nat)
      requires Valid()
      requires d < t < |status|
      modifies this`deps
      ensures Valid()
      ensures |deps| == |old(deps)| && deps == old(deps)[t := [d] + old(deps)[t]]
    {
      deps := deps[t := [d] + deps[t]];
    }

    /** `trans_abort`.  It ends the program if and only if a committed transaction can be
        reached from t through pending ones; otherwise it aborts exactly the pending ones
        that it reaches. */
    method Abort(t: nat) returns (fatal: bool)
      requires Valid()
      requires t < |status|
      modifies this`status
      ensures |status| == |old(status)|
      ensures fatal <==> Fatal(old(status), deps, t)
      ensures !fatal ==> Cascaded(old(status), deps, t, status)
      decreases t
    {
      if status[t] == Committed {
        assert Visits(status, deps, t, t);
        return true;
      }
      if status[t] == Pending {
        ghost var before := status;
        status := status[t := Aborted];
        ghost var done: set<nat> := {};
        assert status[t := Pending] == before;
        var i := 0;
        while i < |deps[t]|
          invariant i <= |deps[t]| && Progress(before, deps, t, i, done, status)
        {
          ghost var now := status;
          fatal := Abort(deps[t][i]);
          if fatal {
            ProgressFatal(before, deps, t, i, done, now);
            return true;
          }
          done := ProgressStep(before, deps, t, i, done, now, status);
          i := i + 1;
        }
        AllMarked(before, deps, done, status[t := Pending], t);
        assert status[t := Pending][t := Aborted] == status;
      }
      return false;
    }
  }

  // ----- dependents

  /** A pending transaction that depends on t. */
  predicate Dependent(status: seq<Status>, deps: seq<seq<nat>>, t: nat, u: nat) {
    u < |status| && u < |deps| && status[u] == Pending && t in deps[u]
  }

  /** Transactions created after t keep their status when t is aborted.  So its pending
      dependents are aborted with it if and only if it has none. */
  lemma DependentsStay(status: seq<Status>, deps: seq<seq<nat>>, t: nat, status': seq<Status>)
    requires Grounded(deps) && |deps| == |status| && t < |status|
    requires Cascaded(status, deps, t, status')
    ensures forall u :: t < u < |status| ==> status'[u] == status[u]
    ensures (forall u: nat :: Dependent(status, deps, t, u) ==> u < |status'| && status'[u] == Aborted) <==>
            !exists u: nat :: Dependent(status, deps, t, u)
  {
    forall u | t < u < |status|
      ensures status'[u] == status[u]
    {
      VisitsBelow(status, status, deps, t, u);
    }
    forall u: nat | Dependent(status, deps, t, u)
      ensures t < u && status'[u] == Pending
    {
      var j :| 0 <= j < |deps[u]| && deps[u][j] == t;
      assert Below(deps[u], u);
    }
  }

  /** Transaction 1 depends on 0, which is aborted; 1 stays pending. */
  method DependentLeft() returns (table: Table, fatal: bool)
    ensures !fatal && table.status == [Aborted, Pending] && Dependent([Pending, Pending], table.deps, 0, 1)
  {
    table := new Table();
    var first := table.Create();
    var second := table.Create();
    ghost var none: seq<nat> := [];
    assert table.deps == [none, none];
    table.AddDependency(second, first);
    assert [0] + none == [0];
    assert table.deps == [none, [0]];
    ghost var before := table.status;
    assert forall u: nat :: Visits(before, table.deps, 0, u) ==> u == 0;
    fatal := table.Abort(first);
    assert Visits(before, table.deps, 0, 0);
    DependentsStay(before, table.deps, 0, table.status);
  }
}
