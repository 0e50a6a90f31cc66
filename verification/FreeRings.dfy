/** Circular doubly linked lists with a dummy head, as links and as the sequence of
    elements met when following them.  The head is element 0 of the sequence.
 */
module FreeRings {

  ghost predicate NoDup<T(!new)>(s: seq<T>) {
    forall i, j :: 0 <= i < |s| && 0 <= j < |s| && i != j ==> s[i] != s[j]
  }

  /** Following next from s[0] visits s in order and returns to s[0]; prev goes back. */
  ghost predicate Ring<T(!new)>(next: map<T, T>, prev: map<T, T>, s: seq<T>) {
    && 0 < |s|
    && NoDup(s)
    && (forall i {:trigger LinkedAt(next, prev, s, i)} :: 0 <= i < |s| ==> LinkedAt(next, prev, s, i))
  }

  ghost predicate LinkedAt<T(!new)>(next: map<T, T>, prev: map<T, T>, s: seq<T>, i: nat)
    requires i < |s|
  {
    && s[i] in next && next[s[i]] == s[Succ(s, i)]
    && s[Succ(s, i)] in prev && prev[s[Succ(s, i)]] == s[i]
  }

  function Succ<T>(s: seq<T>, i: nat): (j: nat)
    requires i < |s|
    ensures j < |s|
  {
    if i + 1 == |s| then 0 else i + 1
  }

  function RemoveAt<T>(s: seq<T>, i: nat): seq<T>
    requires i < |s|
  {
    s[..i] + s[i + 1..]
  }

  function InsertAt<T>(s: seq<T>, i: nat, x: T): seq<T>
    requires i <= |s|
  {
    s[..i] + [x] + s[i..]
  }

  /** Bypassing an element other than the head takes it out of the ring.  Its own links
      still lead to its two former neighbours, which now lead to each other. */
  lemma Bypass<T(!new)>(next: map<T, T>, prev: map<T, T>, s: seq<T>, i: nat)
    requires Ring(next, prev, s)
    requires 0 < i < |s|
    ensures s[i] in next && s[i] in prev
    ensures var x := s[i]; var n := next[x]; var p := prev[x];
            && n != x && p != x
            && Ring(next[p := n], prev[n := p], RemoveAt(s, i))
            && s[i] !in RemoveAt(s, i)
            && p in RemoveAt(s, i) && n in RemoveAt(s, i)
  {
    assert LinkedAt(next, prev, s, i);
    assert LinkedAt(next, prev, s, i - 1);
    var x := s[i];
    var n, p := next[x], prev[x];
    var next', prev' := next[p := n], prev[n := p];
    var r := RemoveAt(s, i);
    assert r[i - 1] == p;
    var j := if i + 1 == |s| then 0 else i;
    assert r[j] == n;
    forall k | 0 <= k < |r|
      ensures LinkedAt(next', prev', r, k)
    {
      assert LinkedAt(next, prev, s, if k < i then k else k + 1);
    }
  }

  /** Inserting x between s[i] and its successor. */
  lemma LinkIn<T(!new)>(next: map<T, T>, prev: map<T, T>, s: seq<T>, i: nat, x: T)
    requires Ring(next, prev, s)
    requires i < |s|
    requires x !in s
    ensures s[i] in next
    ensures var n := next[s[i]];
            n in prev && Ring(next[x := n][s[i] := x], prev[x := s[i]][n := x], InsertAt(s, i + 1, x))
  {
    assert LinkedAt(next, prev, s, i);
    var n := next[s[i]];
    var r := InsertAt(s, i + 1, x);
    var next', prev' := next[x := n][s[i] := x], prev[x := s[i]][n := x];
    forall k | 0 <= k < |r|
      ensures LinkedAt(next', prev', r, k)
    {
      if k != i + 1 {
        assert LinkedAt(next, prev, s, if k <= i then k else k - 1);
      }
    }
  }

  /** Links of elements outside the ring do not matter. */
  lemma Elsewhere<T(!new)>(next: map<T, T>, prev: map<T, T>, next': map<T, T>, prev': map<T, T>, s: seq<T>)
    requires Ring(next, prev, s)
    requires forall x :: x in s && x in next ==> x in next' && next'[x] == next[x]
    requires forall x :: x in s && x in prev ==> x in prev' && prev'[x] == prev[x]
    ensures Ring(next', prev', s)
  {
    forall i | 0 <= i < |s|
      ensures LinkedAt(next', prev', s, i)
    {
      assert LinkedAt(next, prev, s, i);
    }
  }
}
