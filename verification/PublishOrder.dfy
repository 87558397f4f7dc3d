/**
 The order in which workspace crates are published: repeatedly list the packages none of whose
 dependencies are still in the graph, and give up after n^2 rounds.
 */
module PublishOrder {
  import opened Basics

  datatype Package = Package(name: string, dependencies: seq<string>)

  /** The dependency dictionary in its iteration order; names are its keys. */
  type Graph = seq<Package>

  ghost predicate DistinctNames(g: Graph) {
    forall i, j :: 0 <= i < j < |g| ==> g[i].name != g[j].name
  }

  function Names(g: Graph): set<string> {
    set i | 0 <= i < |g| :: g[i].name
  }

  predicate DependsOnAny(p: Package, names: set<string>) {
    exists d :: d in p.dependencies && d in names
  }

  /** Every package has a smaller-ranked place for each of its dependencies in the graph. */
  ghost predicate Ranks(g: Graph, rank: map<string, nat>) {
    forall p, d :: p in g && d in p.dependencies && d in Names(g) ==>
      p.name in rank && d in rank && rank[d] < rank[p.name]
  }

  ghost predicate Acyclic(g: Graph) {
    exists rank :: Ranks(g, rank)
  }

  /** Packages of the graph, each depending on the next one. */
  ghost predicate Path(g: Graph, path: seq<Package>) {
    && path != [] && (forall p :: p in path ==> p in g)
    && forall i :: 0 <= i < |path| - 1 ==> path[i + 1].name in path[i].dependencies
  }

  /** A dependency path from a package to itself. */
  ghost predicate Cycle(g: Graph, path: seq<Package>) {
    Path(g, path) && |path| >= 2 && path[0] == path[|path| - 1]
  }

  /** Every package of a non-empty graph waits for another one of it. */
  ghost predicate Stuck(g: Graph) {
    g != [] && forall p :: p in g ==> DependsOnAny(p, Names(g))
  }

  /** `order` lists the packages of `g` once each, every one after all its dependencies in the graph. */
  ghost predicate IsOrder(g: Graph, order: seq<string>) {
    && (forall i, j :: 0 <= i < j < |order| ==> order[i] != order[j])
    && (forall n :: n in order <==> n in Names(g))
    && (forall p, d, i ::
          p in g && d in p.dependencies && d in Names(g) && 0 <= i < |order| && order[i] == p.name ==> d in order[..i])
  }

  // ----- cycles -----

  lemma {:induction false} LeastRanked(g: Graph, rank: map<string, nat>) returns (p: Package)
    requires g != [] && forall q :: q in g ==> q.name in rank
    ensures p in g && forall q :: q in g ==> rank[p.name] <= rank[q.name]
  {
    p := g[0];
    for i := 0 to |g|
      invariant p in g && forall j :: 0 <= j < i ==> rank[p.name] <= rank[g[j].name]
    {
      if rank[g[i].name] < rank[p.name] {
        p := g[i];
      }
    }
  }

  lemma PartNames(g: Graph, part: Graph)
    requires forall p :: p in part ==> p in g
    ensures Names(part) <= Names(g)
    ensures forall p :: p in part ==> p.name in Names(part)
  {
    forall n | n in Names(part)
      ensures n in Names(g)
    {
      var i :| 0 <= i < |part| && part[i].name == n;
      assert part[i] in part;
      var j :| 0 <= j < |g| && g[j] == part[i];
    }
  }

  /** Nothing inside a stuck part can be ranked. */
  lemma StuckIsCyclic(g: Graph, part: Graph)
    requires Stuck(part) && forall p :: p in part ==> p in g
    ensures !Acyclic(g)
  {
    forall rank: map<string, nat> | Ranks(g, rank)
      ensures false
    {
      PartNames(g, part);
      forall q | q in part
        ensures q.name in rank
      {
        assert DependsOnAny(q, Names(part));
      }
      var p := LeastRanked(part, rank);
    }
  }

  function Positions(order: seq<string>): map<string, nat> {
    if order == [] then map[] else Positions(order[..|order| - 1])[order[|order| - 1] := |order| - 1]
  }

  lemma {:induction false} PositionOf(order: seq<string>, i: nat)
    requires (forall k, l :: 0 <= k < l < |order| ==> order[k] != order[l]) && i < |order|
    ensures order[i] in Positions(order) && Positions(order)[order[i]] == i
  {
    var n := |order| - 1;
    if i < n {
      PositionOf(order[..n], i);
      assert order[..n][i] == order[i];
    }
  }

  /** The position in an order is a rank. */
  lemma OrderIsAcyclic(g: Graph, order: seq<string>)
    requires IsOrder(g, order)
    ensures Acyclic(g)
  {
    var rank := Positions(order);
    PartNames(g, g);
    forall p, d | p in g && d in p.dependencies && d in Names(g)
      ensures p.name in rank && d in rank && rank[d] < rank[p.name]
    {
      var i :| 0 <= i < |order| && order[i] == p.name;
      assert d in order[..i];
      var j :| 0 <= j < i && order[j] == d;
      PositionOf(order, i);
      PositionOf(order, j);
    }
    assert Ranks(g, rank);
  }

  // ----- the loop -----

  /** The packages that wait for one of `names`, and the names of those that do not, in order. */
  function Waiting(g: Graph, names: set<string>): Graph {
    if g == [] then []
    else Waiting(g[..|g| - 1], names) + if DependsOnAny(g[|g| - 1], names) then [g[|g| - 1]] else []
  }

  function Ready(g: Graph, names: set<string>): seq<string> {
    if g == [] then []
    else Ready(g[..|g| - 1], names) + if DependsOnAny(g[|g| - 1], names) then [] else [g[|g| - 1].name]
  }

  /** One round: the names of the packages that are ready, and the graph without them. */
  method Round(g: Graph) returns (ready: seq<string>, rest: Graph)
    ensures ready == Ready(g, Names(g)) && rest == Waiting(g, Names(g))
  {
    ready, rest := [], [];
    for i := 0 to |g|
      invariant ready == Ready(g[..i], Names(g)) && rest == Waiting(g[..i], Names(g))
    {
      assert g[..i + 1][..i] == g[..i];
      if DependsOnAny(g[i], Names(g)) {
        rest := rest + [g[i]];
      } else {
        ready := ready + [g[i].name];
      }
    }
    assert g[..|g|] == g;
  }

  lemma {:induction false} WaitingElements(g: Graph, names: set<string>)
    ensures |Waiting(g, names)| + |Ready(g, names)| == |g|
    ensures forall p :: p in Waiting(g, names) <==> p in g && DependsOnAny(p, names)
  {
    if g != [] {
      WaitingElements(g[..|g| - 1], names);
      assert g == g[..|g| - 1] + [g[|g| - 1]];
    }
  }

  lemma {:induction false} ReadyElements(g: Graph, names: set<string>)
    ensures forall n :: n in Ready(g, names) <==> exists p :: p in g && p.name == n && !DependsOnAny(p, names)
  {
    if g != [] {
      var k := |g| - 1;
      ReadyElements(g[..k], names);
      assert g == g[..k] + [g[k]];
    }
  }

  lemma {:induction false} WaitingDistinct(g: Graph, names: set<string>)
    requires DistinctNames(g)
    ensures DistinctNames(Waiting(g, names))
  {
    if g != [] {
      var before, last := g[..|g| - 1], g[|g| - 1];
      WaitingDistinct(before, names);
      WaitingElements(before, names);
      var waiting := Waiting(before, names);
      forall i | 0 <= i < |waiting|
        ensures waiting[i].name != last.name
      {
        assert waiting[i] in before;
      }
    }
  }

  lemma {:induction false} ReadyDistinct(g: Graph, names: set<string>)
    requires DistinctNames(g)
    ensures forall i, j :: 0 <= i < j < |Ready(g, names)| ==> Ready(g, names)[i] != Ready(g, names)[j]
  {
    if g != [] {
      var before, last := g[..|g| - 1], g[|g| - 1];
      ReadyDistinct(before, names);
      ReadyElements(before, names);
      var ready := Ready(before, names);
      forall i | 0 <= i < |ready|
        ensures ready[i] != last.name
      {
        assert ready[i] in ready;
        var p :| p in before && p.name == ready[i];
      }
    }
  }

  /** What a round does to the graph and to the names listed so far. */
  ghost predicate Listed(g0: Graph, g: Graph, sorted: seq<string>) {
    && DistinctNames(g) && (forall p :: p in g ==> p in g0)
    && (forall i, j :: 0 <= i < j < |sorted| ==> sorted[i] != sorted[j])
    && Names(g) !! NamesIn(sorted) && Names(g) + NamesIn(sorted) == Names(g0)
    && (forall p, d, i ::
          p in g0 && d in p.dependencies && d in Names(g0) && 0 <= i < |sorted| && sorted[i] == p.name ==>
            d in sorted[..i])
  }

  function NamesIn(s: seq<string>): set<string> {
    set n | n in s
  }

  datatype Outcome = Ordered(order: seq<string>) | CircularDependencySuspected(packages: Graph)

  /**
   The ordering loop. It succeeds exactly on graphs without a cycle of dependencies, with an order; the budget
   of n^2 rounds never cuts a run short that could still succeed. On failure the reported packages all wait
   for each other, and hold a cycle.
   */
  method OrderPackages(g: Graph) returns (r: Outcome)
    requires DistinctNames(g)
    ensures r.Ordered? <==> !exists path :: Cycle(g, path)
    ensures r.Ordered? ==> IsOrder(g, r.order)
    ensures r.CircularDependencySuspected? ==>
              && Stuck(r.packages) && (forall p :: p in r.packages ==> p in g)
              && exists path :: Cycle(r.packages, path)
  {
    AcyclicExactly(g);
    var graph, sorted := g, [];
    var n := |g|;
    var maxIterations := n * n;
    ghost var rounds := 0;
    assert NamesIn([]) == {};
    while graph != []
      invariant Listed(g, graph, sorted)
      invariant maxIterations == n * n - rounds && 0 <= rounds <= n * n
      invariant Stuck(graph) || |graph| + rounds <= n
      decreases maxIterations
    {
      if maxIterations == 0 {
        BudgetSuffices(n, rounds);
        StuckIsCyclic(g, graph);
        var path := StuckHasCycle(graph);
        return CircularDependencySuspected(graph);
      }
      maxIterations := maxIterations - 1;
      var ready, rest := Round(graph);
      RoundLists(g, graph, sorted);
      WaitingElements(graph, Names(graph));
      RoundStuck(graph);
      graph, sorted, rounds := rest, sorted + ready, rounds + 1;
    }
    assert IsOrder(g, sorted);
    OrderIsAcyclic(g, sorted);
    return Ordered(sorted);
  }

  lemma BudgetSuffices(n: nat, rounds: nat)
    requires rounds == n * n
    ensures rounds >= n
  {
  }

  /** A round in which nothing is ready leaves a stuck graph, and a stuck graph stays as it is. */
  lemma RoundStuck(g: Graph)
    requires g != []
    ensures Ready(g, Names(g)) == [] ==> Stuck(Waiting(g, Names(g)))
    ensures Stuck(g) ==> Stuck(Waiting(g, Names(g)))
  {
    WaitingElements(g, Names(g));
    ReadyElements(g, Names(g));
    assert forall p :: p in g && !DependsOnAny(p, Names(g)) ==> p.name in Ready(g, Names(g));
    if Stuck(g) || Ready(g, Names(g)) == [] {
      WaitingAll(g, Names(g));
    }
  }

  lemma {:induction false} WaitingAll(g: Graph, names: set<string>)
    requires forall p :: p in g ==> DependsOnAny(p, names)
    ensures Waiting(g, names) == g
  {
    if g != [] {
      var k := |g| - 1;
      assert g == g[..k] + [g[k]];
      WaitingAll(g[..k], names);
    }
  }

  /** The names of a graph split into those that wait and those that are ready. */
  lemma NamesSplit(g: Graph, names: set<string>)
    requires DistinctNames(g)
    ensures Names(Waiting(g, names)) !! NamesIn(Ready(g, names))
    ensures Names(Waiting(g, names)) + NamesIn(Ready(g, names)) == Names(g)
  {
    var waiting, ready := Waiting(g, names), Ready(g, names);
    WaitingElements(g, names);
    ReadyElements(g, names);
    PartNames(g, waiting);
    PartNames(g, g);
    forall n | n in Names(g)
      ensures n in Names(waiting) || n in ready
    {
      var i :| 0 <= i < |g| && g[i].name == n;
      assert g[i] in g;
    }
  }

  lemma RoundLists(g0: Graph, g: Graph, sorted: seq<string>)
    requires Listed(g0, g, sorted) && DistinctNames(g0)
    ensures Listed(g0, Waiting(g, Names(g)), sorted + Ready(g, Names(g)))
  {
    var names := Names(g);
    var waiting, ready := Waiting(g, names), Ready(g, names);
    WaitingElements(g, names);
    WaitingDistinct(g, names);
    ReadyDistinct(g, names);
    NamesSplit(g, names);
    assert NamesIn(sorted + ready) == NamesIn(sorted) + NamesIn(ready);
    forall i, j | 0 <= i < j < |sorted + ready|
      ensures (sorted + ready)[i] != (sorted + ready)[j]
    {
      if i < |sorted| <= j {
        assert sorted[i] in NamesIn(sorted) && ready[j - |sorted|] in NamesIn(ready);
      }
    }
    forall p, d, i | && p in g0 && d in p.dependencies && d in Names(g0)
                     && 0 <= i < |sorted + ready| && (sorted + ready)[i] == p.name
      ensures d in (sorted + ready)[..i]
    {
      if i < |sorted| {
        assert (sorted + ready)[..i] == sorted[..i];
      } else {
        ReadyIsFree(g0, g, p, d);
        assert ready[i - |sorted|] in ready;
        assert (sorted + ready)[..i] == sorted + ready[..i - |sorted|];
      }
    }
  }

  /** A dependency of a ready package is no longer in the graph. */
  lemma ReadyIsFree(g0: Graph, g: Graph, p: Package, d: string)
    requires DistinctNames(g0) && (forall q :: q in g ==> q in g0) && p in g0 && d in p.dependencies
    ensures p.name in Ready(g, Names(g)) ==> d !in Names(g)
  {
    ReadyElements(g, Names(g));
    if p.name in Ready(g, Names(g)) {
      var q :| q in g && q.name == p.name && !DependsOnAny(q, Names(g));
      assert q == p by {
        var i :| 0 <= i < |g0| && g0[i] == p;
        var j :| 0 <= j < |g0| && g0[j] == q;
      }
    }
  }

  // ----- ranks and cycles -----

  lemma {:induction false} RankFalls(g: Graph, rank: map<string, nat>, path: seq<Package>)
    requires Ranks(g, rank) && Path(g, path) && |path| >= 2
    ensures path[0].name in rank && path[|path| - 1].name in rank && rank[path[|path| - 1].name] < rank[path[0].name]
  {
    PartNames(g, g);
    assert path[0] in path && path[1] in path;
    if |path| > 2 {
      var rest := path[1..];
      forall i | 0 <= i < |rest| - 1
        ensures rest[i + 1].name in rest[i].dependencies
      {
        assert path[i + 2].name in path[i + 1].dependencies;
      }
      RankFalls(g, rank, rest);
    }
  }

  /** In a stuck graph every path can be prolonged. */
  lemma {:induction false} LongPath(g: Graph, n: nat) returns (path: seq<Package>)
    requires Stuck(g)
    ensures Path(g, path) && |path| == n + 1
  {
    if n == 0 {
      path := [g[0]];
    } else {
      var before := LongPath(g, n - 1);
      var last := before[n - 1];
      assert last in before && DependsOnAny(last, Names(g));
      var d :| d in last.dependencies && d in Names(g);
      var i :| 0 <= i < |g| && g[i].name == d;
      path := before + [g[i]];
    }
  }

  ghost function ElementsOf(s: seq<Package>): set<Package> {
    set p | p in s
  }

  lemma {:induction false} FewElements(s: seq<Package>)
    ensures |ElementsOf(s)| <= |s|
    ensures (forall i, j :: 0 <= i < j < |s| ==> s[i] != s[j]) ==> |ElementsOf(s)| == |s|
  {
    if s != [] {
      var n := |s| - 1;
      FewElements(s[..n]);
      assert s == s[..n] + [s[n]];
      assert ElementsOf(s) == ElementsOf(s[..n]) + {s[n]};
      if forall i, j :: 0 <= i < j < |s| ==> s[i] != s[j] {
        assert s[n] !in s[..n];
      }
    }
  }

  /** A list that is longer than the graph it comes from holds some package twice. */
  lemma Pigeonhole(g: Graph, s: seq<Package>) returns (i: nat, j: nat)
    requires |s| > |g| && forall p :: p in s ==> p in g
    ensures i < j < |s| && s[i] == s[j]
  {
    FewElements(s);
    FewElements(g);
    assert ElementsOf(g) == ElementsOf(s) + (ElementsOf(g) - ElementsOf(s));
    i, j :| 0 <= i < j < |s| && s[i] == s[j];
  }

  lemma StuckHasCycle(g: Graph) returns (cycle: seq<Package>)
    requires Stuck(g)
    ensures Cycle(g, cycle)
  {
    var path := LongPath(g, |g|);
    var i, j := Pigeonhole(g, path);
    cycle := path[i..j + 1];
    forall k | 0 <= k < |cycle| - 1
      ensures cycle[k + 1].name in cycle[k].dependencies
    {
      assert path[i + k + 1].name in path[i + k].dependencies;
    }
  }

  /** A graph can be ranked, or some part of it is stuck. */
  lemma {:induction false} AcyclicOrStuck(g: Graph) returns (part: Graph)
    requires DistinctNames(g)
    ensures forall p :: p in part ==> p in g
    ensures Stuck(part) || (part == [] && Acyclic(g))
    decreases |g|
  {
    if g == [] {
      part := [];
      assert Ranks(g, map[]);
    } else {
      var names := Names(g);
      var waiting := Waiting(g, names);
      WaitingElements(g, names);
      RoundStuck(g);
      if Ready(g, names) == [] {
        part := waiting;
      } else {
        WaitingDistinct(g, names);
        part := AcyclicOrStuck(waiting);
        if part == [] {
          RankMore(g);
        }
      }
    }
  }

  /** Ready packages are ranked below the others. */
  ghost function RankAbove(g: Graph, waiting: Graph, r: map<string, nat>): map<string, nat> {
    map n | n in Names(g) :: if n in Names(waiting) then 1 + (if n in r then r[n] else 0) else 0
  }

  lemma RankMoreOf(g: Graph, r: map<string, nat>, p: Package, d: string)
    requires Ranks(Waiting(g, Names(g)), r) && p in g && d in p.dependencies && d in Names(g)
    ensures var rank := RankAbove(g, Waiting(g, Names(g)), r);
            p.name in rank && d in rank && rank[d] < rank[p.name]
  {
    var waiting := Waiting(g, Names(g));
    WaitingElements(g, Names(g));
    PartNames(g, g);
    PartNames(g, waiting);
    assert p in waiting;
  }

  lemma RankMore(g: Graph)
    requires Acyclic(Waiting(g, Names(g)))
    ensures Acyclic(g)
  {
    var r: map<string, nat> :| Ranks(Waiting(g, Names(g)), r);
    var rank := RankAbove(g, Waiting(g, Names(g)), r);
    forall p, d | p in g && d in p.dependencies && d in Names(g)
      ensures p.name in rank && d in rank && rank[d] < rank[p.name]
    {
      RankMoreOf(g, r, p, d);
    }
    assert Ranks(g, rank);
  }

  /** A graph can be ranked if and only if it has no cycle. */
  lemma AcyclicExactly(g: Graph)
    requires DistinctNames(g)
    ensures Acyclic(g) <==> !exists path :: Cycle(g, path)
  {
    if Acyclic(g) {
      var rank: map<string, nat> :| Ranks(g, rank);
      forall path | Cycle(g, path)
        ensures false
      {
        RankFalls(g, rank, path);
      }
    } else {
      var part := AcyclicOrStuck(g);
      var path := StuckHasCycle(part);
      assert Cycle(g, path);
    }
  }
}
