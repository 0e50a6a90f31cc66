/** File types, the conversions declared between them, and the budgeted search for a chain
    of conversions.
 */
module Conversions {
  import opened Integers
  import opened Options

  const MAX_TYPES: nat := 31
  const MAX_CONVERSIONS: nat := 63

  datatype Conversion = Conversion(target: string, program: string, args: Option<string>)

  datatype FileType = FileType(name: string, conversions: seq<Conversion>)

  // ----- the table

  predicate Defined(types: seq<FileType>, name: string) {
    exists i :: 0 <= i < |types| && types[i].name == name
  }

  /** The conversions of the first type of this name. */
  function Edges(types: seq<FileType>, name: string): seq<Conversion> {
    if types == [] then [] else if types[0].name == name then types[0].conversions else Edges(types[1..], name)
  }

  /** Conversions lead to defined types, and the arrays do not overflow. */
  ghost predicate Closed(types: seq<FileType>) {
    && |types| <= MAX_TYPES
    && forall name, i :: 0 <= i < |Edges(types, name)| ==> Defined(types, Edges(types, name)[i].target)
  }

  // ----- the search

  function Direct(edges: seq<Conversion>, target: string): Option<Conversion> {
    if edges == [] then None else if edges[0].target == target then Some(edges[0]) else Direct(edges[1..], target)
  }

  /** `getConversionPath`, with what is left of the budget in loops. */
  function Search(types: seq<FileType>, from: string, to: string, loops: int): Option<seq<Conversion>>
    decreases Positive(loops), if loops <= 0 then 0 else 2, 0
  {
    var edges := Edges(types, from);
    if edges == [] || from == to || loops <= 0 then None
    else
      match Direct(edges, to)
      case Some(c) => Some([c])
      case None => Try(types, edges, 0, to, loops)
  }

  /** Its loop over the conversions from i on; each of them costs one unit of the budget. */
  function Try(types: seq<FileType>, edges: seq<Conversion>, i: nat, to: string, loops: int): Option<seq<Conversion>>
    requires i <= |edges|
    decreases Positive(loops), 1, |edges| - i
  {
    if i == |edges| then None
    else
      match Search(types, edges[i].target, to, loops - 1)
      case Some(path) => Some([edges[i]] + path)
      case None => Try(types, edges, i + 1, to, loops - 1)
  }

  // ----- chains of conversions, as the positions of their links in the lists of their types

  ghost predicate Chain(types: seq<FileType>, from: string, to: string, links: seq<nat>)
    decreases |links|
  {
    if links == [] then from == to
    else links[0] < |Edges(types, from)| && Chain(types, Edges(types, from)[links[0]].target, to, links[1..])
  }

  /** What the search spends on the links of a chain before the last one. */
  ghost function Cost(links: seq<nat>): nat {
    if |links| <= 1 then 0 else links[0] + 1 + Cost(links[1..])
  }

  ghost function PathOf(types: seq<FileType>, from: string, links: seq<nat>): seq<Conversion>
    decreases |links|
  {
    if links == [] || links[0] >= |Edges(types, from)| then []
    else
      var c := Edges(types, from)[links[0]];
      [c] + PathOf(types, c.target, links[1..])
  }

  lemma {:induction false} LengthByCost(links: seq<nat>)
    ensures |links| <= Cost(links) + 1
  {
    if 1 < |links| {
      LengthByCost(links[1..]);
    }
  }

  lemma {:induction false} DirectIs(edges: seq<Conversion>, target: string)
    ensures match Direct(edges, target)
            case Some(c) => exists i :: 0 <= i < |edges| && edges[i] == c && c.target == target
            case None => forall i :: 0 <= i < |edges| ==> edges[i].target != target
  {
    if edges != [] && edges[0].target != target {
      DirectIs(edges[1..], target);
      if Direct(edges, target).Some? {
        var i :| 0 <= i < |edges[1..]| && edges[1..][i] == Direct(edges, target).value;
        assert edges[i + 1] == Direct(edges, target).value;
      } else {
        assert forall i :: 1 <= i < |edges| ==> edges[i] == edges[1..][i - 1];
      }
    }
  }

  /** A chain that the search has found, and how much it cost. */
  ghost predicate Affords(types: seq<FileType>, from: string, to: string, links: seq<nat>, loops: int) {
    links != [] && Chain(types, from, to, links) && Cost(links) < loops
  }

  lemma {:induction false} SearchSound(types: seq<FileType>, from: string, to: string,
                                       loops: int) returns (links: seq<nat>)
    requires Search(types, from, to, loops).Some?
    ensures Affords(types, from, to, links, loops)
    ensures Search(types, from, to, loops).value == PathOf(types, from, links)
    decreases Positive(loops), if loops <= 0 then 0 else 2, 0
  {
    var edges := Edges(types, from);
    DirectIs(edges, to);
    if Direct(edges, to).Some? {
      var i :| 0 <= i < |edges| && edges[i] == Direct(edges, to).value;
      links := [i];
    } else {
      links := TrySound(types, from, 0, to, loops);
    }
  }

  lemma {:induction false} TrySound(types: seq<FileType>, from: string, i: nat, to: string,
                                    loops: int) returns (links: seq<nat>)
    requires i <= |Edges(types, from)|
    requires Try(types, Edges(types, from), i, to, loops).Some?
    ensures links != [] && links[0] >= i && Chain(types, from, to, links)
    ensures Cost(links) < loops + i
    ensures Try(types, Edges(types, from), i, to, loops).value == PathOf(types, from, links)
    decreases Positive(loops), 1, |Edges(types, from)| - i
  {
    var edges := Edges(types, from);
    if Search(types, edges[i].target, to, loops - 1).Some? {
      var rest := SearchSound(types, edges[i].target, to, loops - 1);
      links := [i] + rest;
      assert links[1..] == rest;
    } else {
      links := TrySound(types, from, i + 1, to, loops - 1);
    }
  }

  lemma {:induction false} TryFinds(types: seq<FileType>, edges: seq<Conversion>, i: nat, to: string, loops: int,
                                    k: nat)
    requires i <= k < |edges|
    requires Search(types, edges[k].target, to, loops - (k - i) - 1).Some?
    ensures Try(types, edges, i, to, loops).Some?
    decreases k - i
  {
    if i < k && Search(types, edges[i].target, to, loops - 1).None? {
      TryFinds(types, edges, i + 1, to, loops - 1, k);
    }
  }

  lemma {:induction false} SearchComplete(types: seq<FileType>, from: string, to: string, loops: int, links: seq<nat>)
    requires from != to && Affords(types, from, to, links, loops)
    ensures Search(types, from, to, loops).Some?
    decreases |links|
  {
    var edges := Edges(types, from);
    DirectIs(edges, to);
    var next := edges[links[0]].target;
    if next != to && Direct(edges, to).None? {
      assert Chain(types, next, to, links[1..]);
      assert links[1..] != [];
      SearchComplete(types, next, to, loops - (links[0] + 1), links[1..]);
      TryFinds(types, edges, 0, to, loops, links[0]);
    }
  }

  /** The search finds a path if and only if the types differ and some chain between them
      costs less than the budget. */
  lemma SearchExact(types: seq<FileType>, from: string, to: string, loops: int)
    ensures Search(types, from, to, loops).Some? <==>
            from != to && exists links :: Affords(types, from, to, links, loops)
  {
    if Search(types, from, to, loops).Some? {
      var links := SearchSound(types, from, to, loops);
    } else if from != to {
      forall links
        ensures !Affords(types, from, to, links, loops)
      {
        if Affords(types, from, to, links, loops) {
          SearchComplete(types, from, to, loops, links);
        }
      }
    }
  }

  /** What it finds is a chain of declared conversions from the one type to the other, of at
      most loops links. */
  lemma SearchResult(types: seq<FileType>, from: string, to: string, loops: int)
    requires Search(types, from, to, loops).Some?
    ensures var path := Search(types, from, to, loops).value;
            0 < |path| <= loops && Leads(types, from, to, path)
  {
    var links := SearchSound(types, from, to, loops);
    LengthByCost(links);
    PathLeads(types, from, to, links);
  }

  /** Each conversion of the path is declared for the type that the one before produced. */
  ghost predicate Leads(types: seq<FileType>, from: string, to: string, path: seq<Conversion>)
    decreases |path|
  {
    if path == [] then from == to
    else path[0] in Edges(types, from) && Leads(types, path[0].target, to, path[1..])
  }

  lemma {:induction false} PathLeads(types: seq<FileType>, from: string, to: string, links: seq<nat>)
    requires Chain(types, from, to, links)
    ensures Leads(types, from, to, PathOf(types, from, links)) && |PathOf(types, from, links)| == |links|
    decreases |links|
  {
    if links != [] {
      var c := Edges(types, from)[links[0]];
      PathLeads(types, c.target, to, links[1..]);
      assert PathOf(types, from, links)[1..] == PathOf(types, c.target, links[1..]);
    }
  }

  // ----- which chain is found

  /** No conversion before position k leads directly to the type. */
  ghost predicate NoneBefore(edges: seq<Conversion>, k: nat, to: string) {
    forall i :: 0 <= i < k && i < |edges| ==> edges[i].target != to
  }

  ghost predicate Unaffordable(types: seq<FileType>, from: string, to: string, loops: int) {
    forall links :: !Affords(types, from, to, links, loops)
  }

  /** No chain that can be afforded starts with a conversion at a position before k. */
  ghost predicate NoChainBefore(types: seq<FileType>, edges: seq<Conversion>, k: nat, to: string, loops: int) {
    forall i :: 0 <= i < k && i < |edges| ==> Unaffordable(types, edges[i].target, to, loops - i - 1)
  }

  /** The chain takes the first direct conversion wherever there is one, and otherwise the first
      conversion from which the rest of the budget leads on. */
  ghost predicate Foremost(types: seq<FileType>, from: string, to: string, links: seq<nat>, loops: int)
    decreases |links|
  {
    var edges := Edges(types, from);
    && links != [] && links[0] < |edges|
    && if |links| == 1 then edges[links[0]].target == to && NoneBefore(edges, links[0], to)
       else
         && NoneBefore(edges, |edges|, to) && NoChainBefore(types, edges, links[0], to, loops)
         && Foremost(types, edges[links[0]].target, to, links[1..], loops - links[0] - 1)
  }

  lemma {:induction false} FirstDirect(edges: seq<Conversion>, target: string) returns (k: nat)
    requires Direct(edges, target).Some?
    ensures k < |edges| && edges[k] == Direct(edges, target).value && edges[k].target == target
    ensures NoneBefore(edges, k, target)
  {
    k := 0;
    if edges[0].target != target {
      k := FirstDirect(edges[1..], target);
      forall i | 0 <= i < k + 1
        ensures edges[i].target != target
      {
        assert 0 < i ==> edges[i] == edges[1..][i - 1];
      }
      k := k + 1;
    }
  }

  lemma {:induction false} FirstTried(types: seq<FileType>, edges: seq<Conversion>, i: nat, to: string,
                                      loops: int) returns (k: nat)
    requires i <= |edges| && Try(types, edges, i, to, loops).Some?
    ensures i <= k < |edges|
    ensures forall j :: i <= j < k ==> Search(types, edges[j].target, to, loops - (j - i) - 1).None?
    ensures Search(types, edges[k].target, to, loops - (k - i) - 1).Some?
    ensures Try(types, edges, i, to, loops).value ==
            [edges[k]] + Search(types, edges[k].target, to, loops - (k - i) - 1).value
    decreases |edges| - i
  {
    k := i;
    if Search(types, edges[i].target, to, loops - 1).None? {
      k := FirstTried(types, edges, i + 1, to, loops - 1);
    }
  }

  /** The chain that is found. */
  lemma {:induction false} FoundFirst(types: seq<FileType>, from: string, to: string,
                                      loops: int) returns (links: seq<nat>)
    requires Search(types, from, to, loops).Some?
    ensures Search(types, from, to, loops).value == PathOf(types, from, links)
    ensures Foremost(types, from, to, links, loops) && Cost(links) < loops
    decreases Positive(loops)
  {
    hide Affords;
    var edges := Edges(types, from);
    DirectIs(edges, to);
    if Direct(edges, to).Some? {
      var k := FirstDirect(edges, to);
      links := [k];
    } else {
      var k := FirstTried(types, edges, 0, to, loops);
      var rest := FoundFirst(types, edges[k].target, to, loops - k - 1);
      links := [k] + rest;
      assert links[1..] == rest;
      forall i | 0 <= i < k
        ensures Unaffordable(types, edges[i].target, to, loops - i - 1)
      {
        SearchExact(types, edges[i].target, to, loops - i - 1);
      }
    }
  }

  lemma {:induction false} ForemostAffords(types: seq<FileType>, from: string, to: string, links: seq<nat>, loops: int)
    requires Foremost(types, from, to, links, loops) && Cost(links) < loops
    ensures Affords(types, from, to, links, loops)
    decreases |links|
  {
    hide NoneBefore, NoChainBefore;
    if 1 < |links| {
      ForemostAffords(types, Edges(types, from)[links[0]].target, to, links[1..], loops - links[0] - 1);
    } else {
      assert links[1..] == [] && Chain(types, to, to, links[1..]);
    }
  }

  /** There is only one such chain within the budget. */
  lemma {:induction false} ForemostUnique(types: seq<FileType>, from: string, to: string, links: seq<nat>,
                                          links': seq<nat>, loops: int)
    requires Foremost(types, from, to, links, loops) && Cost(links) < loops
    requires Foremost(types, from, to, links', loops) && Cost(links') < loops
    ensures links == links'
    decreases |links|
  {
    hide Affords;
    var edges := Edges(types, from);
    var k, l := links[0], links'[0];
    if 1 < |links| && 1 < |links'| {
      ForemostAffords(types, edges[k].target, to, links[1..], loops - k - 1);
      ForemostAffords(types, edges[l].target, to, links'[1..], loops - l - 1);
      if k == l {
        ForemostUnique(types, edges[k].target, to, links[1..], links'[1..], loops - k - 1);
      }
      assert links == [k] + links[1..] && links' == [l] + links'[1..];
    } else {
      assert links[1..] == [] ==> links == [k];
      assert links'[1..] == [] ==> links' == [l];
    }
  }

  // ----- when the budget is enough

  /** The type reached after k links. */
  ghost function Stop(types: seq<FileType>, from: string, links: seq<nat>, k: nat): string
    decreases k
  {
    if k == 0 || links == [] || links[0] >= |Edges(types, from)| then from
    else Stop(types, Edges(types, from)[links[0]].target, links[1..], k - 1)
  }

  lemma {:induction false} ChainSplits(types: seq<FileType>, from: string, to: string, links: seq<nat>, k: nat)
    requires Chain(types, from, to, links) && k <= |links|
    ensures Chain(types, from, Stop(types, from, links, k), links[..k])
    ensures Chain(types, Stop(types, from, links, k), to, links[k..])
    decreases k
  {
    if k == 0 {
      assert links[0..] == links;
    } else {
      ChainSplits(types, Edges(types, from)[links[0]].target, to, links[1..], k - 1);
      assert links[..k][1..] == links[1..][..k - 1];
      assert links[k..] == links[1..][k - 1..];
    }
  }

  lemma {:induction false} ChainsJoin(types: seq<FileType>, from: string, mid: string, to: string, a: seq<nat>,
                                      b: seq<nat>)
    requires Chain(types, from, mid, a) && Chain(types, mid, to, b)
    ensures Chain(types, from, to, a + b)
    decreases |a|
  {
    if a == [] {
      assert a + b == b;
    } else {
      ChainsJoin(types, Edges(types, from)[a[0]].target, mid, to, a[1..], b);
      assert (a + b)[1..] == a[1..] + b;
    }
  }

  /** Only defined types have conversions, so every stop but the last is defined. */
  lemma {:induction false} StopsDefined(types: seq<FileType>, from: string, to: string, links: seq<nat>, k: nat)
    requires Chain(types, from, to, links) && k < |links|
    ensures Defined(types, Stop(types, from, links, k))
    decreases k
  {
    if k == 0 {
      EdgesDefined(types, from);
    } else {
      StopsDefined(types, Edges(types, from)[links[0]].target, to, links[1..], k - 1);
    }
  }

  lemma {:induction false} EdgesDefined(types: seq<FileType>, name: string)
    requires Edges(types, name) != []
    ensures Defined(types, name)
  {
    if types[0].name != name {
      EdgesDefined(types[1..], name);
      var i :| 0 <= i < |types[1..]| && types[1..][i].name == name;
      assert types[i + 1].name == name;
    } else {
      assert types[0].name == name;
    }
  }

  function Names(types: seq<FileType>): (names: set<string>)
    ensures |names| <= |types|
    ensures forall name :: name in names <==> Defined(types, name)
  {
    if types == [] then {}
    else
      var rest := Names(types[1..]);
      assert forall name :: Defined(types, name) <==> name == types[0].name || Defined(types[1..], name) by {
        DefinedCons(types);
      }
      {types[0].name} + rest
  }

  lemma DefinedCons(types: seq<FileType>)
    requires types != []
    ensures forall name :: Defined(types, name) <==> name == types[0].name || Defined(types[1..], name)
  {
    forall name
      ensures Defined(types, name) <==> name == types[0].name || Defined(types[1..], name)
    {
      if Defined(types[1..], name) {
        var i :| 0 <= i < |types[1..]| && types[1..][i].name == name;
        assert types[i + 1].name == name;
      }
      if Defined(types, name) && name != types[0].name {
        var i :| 0 <= i < |types| && types[i].name == name;
        assert types[1..][i - 1].name == name;
      }
    }
  }

  /** More stops than there are names to tell them apart: two are the same. */
  lemma {:induction false} TwoAlike(stops: seq<string>, names: set<string>) returns (a: nat, b: nat)
    requires |stops| > |names| && forall k :: 0 <= k < |stops| ==> stops[k] in names
    ensures a < b < |stops| && stops[a] == stops[b]
    decreases |stops|
  {
    var first, rest := stops[0], stops[1..];
    if k :| 0 <= k < |rest| && rest[k] == first {
      a, b := 0, k + 1;
    } else {
      a, b := TwoAlike(rest, names - {first});
      a, b := a + 1, b + 1;
    }
  }

  /** Any chain can be cut down to one with fewer links than there are defined types. */
  lemma {:induction false} ShortChain(types: seq<FileType>, from: string, to: string,
                                      links: seq<nat>) returns (short: seq<nat>)
    requires Chain(types, from, to, links) && Defined(types, to)
    ensures Chain(types, from, to, short) && |short| < |Names(types)|
    decreases |links|
  {
    if |links| < |Names(types)| {
      short := links;
    } else {
      var stops := seq(|links| + 1, k requires 0 <= k <= |links| => Stop(types, from, links, k));
      forall k | 0 <= k < |stops|
        ensures stops[k] in Names(types)
      {
        if k < |links| {
          StopsDefined(types, from, to, links, k);
        } else {
          ChainSplits(types, from, to, links, k);
          assert links[k..] == [];
        }
      }
      var a, b := TwoAlike(stops, Names(types));
      ChainSplits(types, from, to, links, a);
      ChainSplits(types, from, to, links, b);
      ChainsJoin(types, from, stops[a], to, links[..a], links[b..]);
      short := ShortChain(types, from, to, links[..a] + links[b..]);
    }
  }

  ghost predicate FewConversions(types: seq<FileType>, most: nat) {
    forall name :: |Edges(types, name)| <= most
  }

  lemma {:induction false} CostBound(types: seq<FileType>, from: string, to: string, links: seq<nat>, most: nat)
    requires Chain(types, from, to, links) && FewConversions(types, most) && links != []
    ensures Cost(links) <= most * (|links| - 1)
    decreases |links|
  {
    if 1 < |links| {
      var next := Edges(types, from)[links[0]].target;
      CostBound(types, next, to, links[1..], most);
      assert links[0] + 1 <= most;
      assert most * (|links| - 1) == most + most * (|links[1..]| - 1);
    }
  }

  lemma LongerCostsMore(most: nat, a: int, b: int)
    requires a <= b
    ensures most * a <= most * b
  {
    assert most * (b - a) >= 0;
  }

  /** With n types of at most m conversions each, a budget above m * (n - 2) is enough: the
      search then finds a path whenever there is one. */
  lemma EnoughBudget(types: seq<FileType>, from: string, to: string, links: seq<nat>, most: nat, loops: int)
    requires from != to && Defined(types, to) && Chain(types, from, to, links)
    requires FewConversions(types, most) && 2 <= |types| && most * (|types| - 2) < loops
    ensures Search(types, from, to, loops).Some?
  {
    var short := ShortChain(types, from, to, links);
    CostBound(types, from, to, short, most);
    LongerCostsMore(most, |short| - 1, |types| - 2);
    SearchComplete(types, from, to, loops, short);
  }

  /** In particular with the limits of the program, if no type has more than two conversions. */
  lemma TwoConversionsSuffice(types: seq<FileType>, from: string, to: string, links: seq<nat>)
    requires |types| <= MAX_TYPES && FewConversions(types, 2)
    requires from != to && Defined(types, from) && Defined(types, to) && Chain(types, from, to, links)
    ensures Search(types, from, to, MAX_CONVERSIONS).Some?
  {
    assert 2 <= |types|;
    EnoughBudget(types, from, to, links, 2, MAX_CONVERSIONS);
  }

  // ----- declaring more never loses a path

  /** Every list of conversions is as before or longer. */
  ghost predicate Grown(types: seq<FileType>, types': seq<FileType>) {
    forall name :: Edges(types, name) <= Edges(types', name)
  }

  lemma {:induction false} ChainsStay(types: seq<FileType>, types': seq<FileType>, from: string, to: string,
                                      links: seq<nat>)
    requires Grown(types, types') && Chain(types, from, to, links)
    ensures Chain(types', from, to, links)
    decreases |links|
  {
    if links != [] {
      assert Edges(types, from) <= Edges(types', from);
      ChainsStay(types, types', Edges(types, from)[links[0]].target, to, links[1..]);
    }
  }

  lemma PathsStay(types: seq<FileType>, types': seq<FileType>, from: string, to: string, loops: int)
    requires Grown(types, types') && Search(types, from, to, loops).Some?
    ensures Search(types', from, to, loops).Some?
  {
    var links := SearchSound(types, from, to, loops);
    ChainsStay(types, types', from, to, links);
    SearchComplete(types', from, to, loops, links);
  }

  /** `newExtension`: a type is added as long as there is room, even if its name is taken. */
  function WithType(types: seq<FileType>, name: string): seq<FileType> {
    if |types| < MAX_TYPES then types + [FileType(name, [])] else types
  }

  /** `newConversion`: a conversion between defined types, not declared before, is appended
      to the list of the first type of its name. */
  function WithConversion(types: seq<FileType>, from: string, c: Conversion): seq<FileType> {
    if Defined(types, from) && Defined(types, c.target) && Direct(Edges(types, from), c.target).None?
       && |Edges(types, from)| < MAX_CONVERSIONS
    then Append(types, from, c)
    else types
  }

  function Append(types: seq<FileType>, from: string, c: Conversion): seq<FileType> {
    if types == [] then []
    else if types[0].name == from then [types[0].(conversions := types[0].conversions + [c])] + types[1..]
    else [types[0]] + Append(types[1..], from, c)
  }

  lemma {:induction false} AppendIs(types: seq<FileType>, from: string, c: Conversion, name: string)
    ensures |Append(types, from, c)| == |types|
    ensures Defined(Append(types, from, c), name) <==> Defined(types, name)
    ensures Edges(Append(types, from, c), name) == Edges(types, name) + if name == from
            && Defined(types, from) then [c] else []
  {
    if types != [] {
      DefinedCons(types);
      var types' := Append(types, from, c);
      DefinedCons(types');
      if types[0].name == from {
        assert types'[1..] == types[1..];
      } else {
        AppendIs(types[1..], from, c, name);
        assert types'[1..] == Append(types[1..], from, c);
      }
    }
  }

  lemma {:induction false} WithTypeIs(types: seq<FileType>, added: FileType, name: string)
    requires added.conversions == []
    ensures Edges(types + [added], name) == Edges(types, name)
    ensures Defined(types, name) ==> Defined(types + [added], name)
  {
    if types == [] {
      assert (types + [added])[1..] == [];
    } else {
      WithTypeIs(types[1..], added, name);
      assert (types + [added])[1..] == types[1..] + [added];
      DefinedCons(types);
      DefinedCons(types + [added]);
    }
  }

  /** Declarations keep every chain, and so every path. */
  lemma DeclaringGrows(types: seq<FileType>, from: string, c: Conversion)
    ensures Grown(types, WithConversion(types, from, c)) && Grown(types, WithType(types, from))
  {
    forall name
      ensures Edges(types, name) <= Edges(WithConversion(types, from, c), name)
      ensures Edges(types, name) == Edges(WithType(types, from), name)
    {
      AppendIs(types, from, c, name);
      WithTypeIs(types, FileType(from, []), name);
    }
  }

  /** They also keep the table closed. */
  lemma DeclaringCloses(types: seq<FileType>, from: string, c: Conversion)
    requires Closed(types)
    ensures Closed(WithConversion(types, from, c)) && Closed(WithType(types, from))
  {
    AppendIs(types, from, c, from);
    forall name
      ensures Defined(types, name) ==>
                Defined(WithConversion(types, from, c), name) && Defined(WithType(types, from), name)
      ensures Edges(types, name) == Edges(WithType(types, from), name)
      ensures forall i :: 0 <= i < |Edges(WithConversion(types, from, c), name)| ==>
                var e := Edges(WithConversion(types, from, c), name)[i];
                e in Edges(types, name) || Defined(types, e.target)
    {
      AppendIs(types, from, c, name);
      WithTypeIs(types, FileType(from, []), name);
    }
  }

  // ----- tables that can be declared

  datatype Declaration = TypeDeclared(name: string) | ConversionDeclared(from: string, c: Conversion)

  function Declare(types: seq<FileType>, d: Declaration): seq<FileType> {
    match d
    case TypeDeclared(name) => WithType(types, name)
    case ConversionDeclared(from, c) => WithConversion(types, from, c)
  }

  function Declared(types: seq<FileType>, ds: seq<Declaration>): seq<FileType>
    decreases |ds|
  {
    if ds == [] then types else Declared(Declare(types, ds[0]), ds[1..])
  }

  /** A name that can be given on a command line: not empty, and without separators. */
  predicate Token(name: string) {
    name != "" && ' ' !in name && '\n' !in name
  }

  /** All names in the declaration are such names. */
  predicate Speakable(d: Declaration) {
    match d
    case TypeDeclared(name) => Token(name)
    case ConversionDeclared(from, c) => Token(from) && Token(c.target) && Token(c.program)
  }

  lemma {:induction false} DeclaredMore(types: seq<FileType>, ds: seq<Declaration>, d: Declaration)
    ensures Declared(types, ds + [d]) == Declare(Declared(types, ds), d)
    decreases |ds|
  {
    hide Declare;
    if ds == [] {
      assert ds + [d] == [d];
      assert Declared(Declare(types, d), []) == Declare(types, d);
    } else {
      DeclaredMore(Declare(types, ds[0]), ds[1..], d);
      assert (ds + [d])[1..] == ds[1..] + [d];
    }
  }

  lemma {:induction false} DeclaredFits(types: seq<FileType>, ds: seq<Declaration>)
    requires |types| <= MAX_TYPES
    ensures |Declared(types, ds)| <= MAX_TYPES
    decreases |ds|
  {
    if ds != [] {
      if ds[0].ConversionDeclared? {
        AppendIs(types, ds[0].from, ds[0].c, "");
      }
      DeclaredFits(Declare(types, ds[0]), ds[1..]);
    }
  }

  // ----- when the budget is not enough

  lemma {:induction false} EdgesAt(types: seq<FileType>, name: string, k: nat)
    requires k < |types| && types[k].name == name && forall j :: 0 <= j < k ==> types[j].name != name
    ensures Edges(types, name) == types[k].conversions
  {
    if 0 < k {
      assert types[0].name != name;
      EdgesAt(types[1..], name, k - 1);
    }
  }

  lemma {:induction false} AppendAt(types: seq<FileType>, name: string, c: Conversion, k: nat)
    requires k < |types| && types[k].name == name && forall j :: 0 <= j < k ==> types[j].name != name
    ensures Append(types, name, c) == types[k := types[k].(conversions := types[k].conversions + [c])]
  {
    if 0 < k {
      assert types[0].name != name;
      AppendAt(types[1..], name, c, k - 1);
    }
  }

  /** Names of different lengths. */
  function Name(k: nat): string {
    seq(k + 1, _ => 'x')
  }

  function To(k: nat): Conversion {
    Conversion(Name(k), "convert", None)
  }

  /** Types 0 to 28 form a chain, of which each link comes third, behind conversions to two
      types that lead nowhere. */
  function CrowdedEdges(k: nat): seq<Conversion> {
    if k < 28 then [To(29), To(30), To(k + 1)] else []
  }

  /** How many of its conversions type k has after n declarations in order. */
  function Had(n: nat, k: nat): (h: nat)
    ensures h <= |CrowdedEdges(k)|
  {
    if 28 <= k || n <= 3 * k then 0 else if n < 3 * k + 3 then n - 3 * k else 3
  }

  /** The first t types, after n declarations of conversions. */
  function Stage(t: nat, n: nat): (types: seq<FileType>)
    ensures |types| == t
  {
    seq(t, k requires 0 <= k => FileType(Name(k), CrowdedEdges(k)[..Had(n, k)]))
  }

  lemma StageEdges(t: nat, n: nat, k: nat)
    ensures Edges(Stage(t, n), Name(k)) == if k < t then CrowdedEdges(k)[..Had(n, k)] else []
    ensures k < t ==> Defined(Stage(t, n), Name(k))
  {
    var types := Stage(t, n);
    assert |Name(k)| == k + 1;
    assert forall j: nat :: |Name(j)| == j + 1;
    assert forall j :: 0 <= j < t ==> types[j].name == Name(j);
    if k < t {
      EdgesAt(types, Name(k), k);
      assert types[k].name == Name(k);
    } else if Edges(types, Name(k)) != [] {
      EdgesDefined(types, Name(k));
    }
  }

  lemma NextType(t: nat)
    requires t < MAX_TYPES
    ensures Stage(t + 1, 0) == Declare(Stage(t, 0), TypeDeclared(Name(t)))
  {
    assert forall k: nat :: CrowdedEdges(k)[..Had(0, k)] == [];
    assert Stage(t + 1, 0) == Stage(t, 0) + [FileType(Name(t), [])];
  }

  lemma StageGrows(n: nat)
    requires n < 84
    ensures var k, types := n / 3, Stage(MAX_TYPES, n);
            && types[k].name == Name(k) && types[k].conversions == CrowdedEdges(k)[..n % 3] && n % 3 < |CrowdedEdges(k)|
            && Stage(MAX_TYPES, n + 1) ==
                types[k := types[k].(conversions := types[k].conversions + [CrowdedEdges(k)[n % 3]])]
  {
    hide Name, To;
    var k, types := n / 3, Stage(MAX_TYPES, n);
    var types' := types[k := types[k].(conversions := types[k].conversions + [CrowdedEdges(k)[n % 3]])];
    assert Had(n, k) == n % 3;
    forall j | 0 <= j < MAX_TYPES
      ensures types'[j] == Stage(MAX_TYPES, n + 1)[j]
    {
      if j != k {
        assert Had(n + 1, j) == Had(n, j);
      } else {
        assert CrowdedEdges(k)[..n % 3 + 1] == CrowdedEdges(k)[..n % 3] + [CrowdedEdges(k)[n % 3]];
      }
    }
  }

  /** The conversion is new to its type. */
  lemma NotYet(k: nat, r: nat)
    requires k < 28 && r < 3
    ensures Direct(CrowdedEdges(k)[..r], CrowdedEdges(k)[r].target).None?
    ensures CrowdedEdges(k)[r].target == Name(if r == 0 then 29 else if r == 1 then 30 else k + 1)
  {
    assert |Name(29)| == 30 && |Name(30)| == 31 && |Name(k + 1)| == k + 2;
    DirectIs(CrowdedEdges(k)[..r], CrowdedEdges(k)[r].target);
  }

  lemma NextConversion(n: nat)
    requires n < 84
    ensures n % 3 < |CrowdedEdges(n / 3)|
    ensures Stage(MAX_TYPES, n + 1) ==
            Declare(Stage(MAX_TYPES, n), ConversionDeclared(Name(n / 3), CrowdedEdges(n / 3)[n % 3]))
  {
    hide Edges, Defined, Append, Direct, CrowdedEdges, Stage, Name;
    var k, r, types := n / 3, n % 3, Stage(MAX_TYPES, n);
    StageGrows(n);
    NotYet(k, r);
    StageEdges(MAX_TYPES, n, k);
    StageEdges(MAX_TYPES, n, if r == 0 then 29 else if r == 1 then 30 else k + 1);
    StageFirst(n, k);
    EdgesAt(types, Name(k), k);
    AppendAt(types, Name(k), CrowdedEdges(k)[r], k);
  }

  lemma StageFirst(n: nat, k: nat)
    requires k < MAX_TYPES
    ensures var types := Stage(MAX_TYPES, n); types[k].name == Name(k) && forall j :: 0 <= j < k ==>
              types[j].name != Name(k)
  {
    assert forall j: nat :: |Name(j)| == j + 1;
  }

  /** The table comes from commands. */
  lemma {:induction false} StageDeclared(t: nat, n: nat) returns (ds: seq<Declaration>)
    requires t <= MAX_TYPES && n <= 84 && (0 < n ==> t == MAX_TYPES)
    ensures Declared([], ds) == Stage(t, n) && forall i :: 0 <= i < |ds| ==> Speakable(ds[i])
    decreases t, n
  {
    hide Declare, Stage, CrowdedEdges;
    if n != 0 {
      var k := (n - 1) / 3;
      var c := CrowdedEdgesAt(n - 1);
      ds := StageDeclared(t, n - 1);
      NextConversion(n - 1);
      DeclaredMore([], ds, ConversionDeclared(Name(k), c));
      ds := ds + [ConversionDeclared(Name(k), c)];
    } else if t != 0 {
      ds := StageDeclared(t - 1, 0);
      NextType(t - 1);
      DeclaredMore([], ds, TypeDeclared(Name(t - 1)));
      ds := ds + [TypeDeclared(Name(t - 1))];
    } else {
      ds := [];
      NoTypes();
    }
  }

  lemma CrowdedEdgesAt(n: nat) returns (c: Conversion)
    requires n < 84
    ensures n % 3 < |CrowdedEdges(n / 3)| && c == CrowdedEdges(n / 3)[n % 3]
    ensures Speakable(ConversionDeclared(Name(n / 3), c))
  {
    c := CrowdedEdges(n / 3)[n % 3];
  }

  lemma NoTypes()
    ensures Stage(0, 0) == []
  {
  }

  /** Every chain from type k to type 28 pays for the crowd. */
  lemma {:induction false} CrowdedCost(k: nat, links: seq<nat>)
    requires k <= 27 && Chain(Stage(MAX_TYPES, 84), Name(k), Name(28), links)
    ensures links != [] && Cost(links) >= 3 * (27 - k)
    decreases |links|
  {
    var types := Stage(MAX_TYPES, 84);
    assert forall j: nat :: |Name(j)| == j + 1;
    StageEdges(MAX_TYPES, 84, k);
    assert Edges(types, Name(k)) == CrowdedEdges(k);
    var next := CrowdedEdges(k)[links[0]].target;
    if links[0] < 2 {
      StageEdges(MAX_TYPES, 84, 29 + links[0]);
      assert false;
    } else if k < 27 {
      CrowdedCost(k + 1, links[1..]);
    }
  }

  lemma {:induction false} CrowdedChain(k: nat) returns (links: seq<nat>)
    requires k <= 28
    ensures Chain(Stage(MAX_TYPES, 84), Name(k), Name(28), links)
    decreases 28 - k
  {
    if k == 28 {
      links := [];
    } else {
      var rest := CrowdedChain(k + 1);
      StageEdges(MAX_TYPES, 84, k);
      links := [2] + rest;
      assert links[1..] == rest;
    }
  }

  lemma CrowdedFew()
    ensures FewConversions(Stage(MAX_TYPES, 84), 3)
  {
    forall name
      ensures |Edges(Stage(MAX_TYPES, 84), name)| <= 3
    {
      FewInAll(Stage(MAX_TYPES, 84), name, 3);
    }
  }

  lemma {:induction false} FewInAll(types: seq<FileType>, name: string, most: nat)
    requires forall k :: 0 <= k < |types| ==> |types[k].conversions| <= most
    ensures |Edges(types, name)| <= most
  {
    if types != [] && types[0].name != name {
      FewInAll(types[1..], name, most);
    }
  }

  /** A table of commands with 31 types and three conversions each, and a chain in it that the
      budget of 63 misses. */
  lemma BudgetCanMiss() returns (ds: seq<Declaration>, links: seq<nat>)
    ensures forall i :: 0 <= i < |ds| ==> Speakable(ds[i])
    ensures var types := Declared([], ds);
            && FewConversions(types, 3) && Defined(types, Name(0)) && Defined(types, Name(28))
            && Chain(types, Name(0), Name(28), links)
            && Name(0) != Name(28) && Search(types, Name(0), Name(28), MAX_CONVERSIONS) == None
  {
    hide Search, Stage, FewConversions, Defined;
    ds := StageDeclared(MAX_TYPES, 84);
    links := CrowdedChain(0);
    CrowdedFew();
    StageEdges(MAX_TYPES, 84, 0);
    StageEdges(MAX_TYPES, 84, 28);
    assert |Name(0)| == 1 && |Name(28)| == 29;
    var types := Stage(MAX_TYPES, 84);
    SearchExact(types, Name(0), Name(28), MAX_CONVERSIONS);
    forall links'
      ensures !Affords(types, Name(0), Name(28), links', MAX_CONVERSIONS)
    {
      if Affords(types, Name(0), Name(28), links', MAX_CONVERSIONS) {
        CrowdedCost(0, links');
      }
    }
  }

  /** In every table that can be declared with at most so many conversions of a type, the
      budget of the program finds a path whenever there is a chain. */
  ghost predicate BudgetEnough(most: nat) {
    forall ds: seq<Declaration>, from, to, links ::
      (forall i :: 0 <= i < |ds| ==> Speakable(ds[i])) && FewConversions(Declared([], ds), most) && from != to
      && Defined(Declared([], ds), from) && Defined(Declared([], ds), to)
          && Chain(Declared([], ds), from, to, links) ==>
        Search(Declared([], ds), from, to, MAX_CONVERSIONS).Some?
  }

  /** It does exactly up to two. */
  lemma BudgetExactly(most: nat)
    ensures BudgetEnough(most) <==> most <= 2
  {
    hide Search, Declared, Defined, Speakable;
    if most <= 2 {
      forall ds: seq<Declaration>, from, to, links | FewConversions(Declared([], ds), most) && from != to
        && Defined(Declared([], ds), from) && Defined(Declared([], ds), to) && Chain(Declared([], ds), from, to, links)
        ensures Search(Declared([], ds), from, to, MAX_CONVERSIONS).Some?
      {
        DeclaredFits([], ds);
        TwoConversionsSuffice(Declared([], ds), from, to, links);
      }
    } else {
      var ds, links := BudgetCanMiss();
      assert FewConversions(Declared([], ds), most);
    }
  }
}
