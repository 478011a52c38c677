/**
 A workflow under a mode: the nodes it leaves out, and what each node it keeps then has
 to wait for.
 */
module Modes {
  import opened Wrappers
  import opened Sequences
  import opened CycleSearch
  import Ordering

  type Id = string

  datatype Node = Node(id: Id, dependsOn: seq<Id>)

  /** The declared dependencies of each node, and the nodes a mode keeps: all of them when it narrows nothing. */
  datatype Flow = Flow(deps: Graph<Id>, included: Option<set<Id>>) {

    predicate Keeps(id: Id) {
      included.None? || id in included.value
    }
  }

  predicate Points(g: Graph<Id>, a: Id, b: Id) {
    a in g && b in g[a]
  }

  /** `list` with each of `more` it does not hold yet appended, in order. */
  function PushAll(list: seq<Id>, more: seq<Id>): (r: seq<Id>)
    decreases |more|
  {
    if more == [] then list
    else PushAll(if more[0] in list then list else list + [more[0]], more[1..])
  }

  lemma {:induction false} PushAllMembers(list: seq<Id>, more: seq<Id>)
    ensures forall x :: x in PushAll(list, more) <==> x in list || x in more
    ensures Ordering.Distinct(list) ==> Ordering.Distinct(PushAll(list, more))
    decreases |more|
  {
    if more != [] {
      HeadSplit(more);
      PushAllMembers(if more[0] in list then list else list + [more[0]], more[1..]);
    }
  }

  lemma {:induction false} PushNext(list: seq<Id>, more: seq<Id>, i: nat)
    requires i < |more|
    ensures PushAll(list, more[i..]) == PushAll(if more[i] in list then list else list + [more[i]], more[i + 1..])
  {
    assert more[i..][0] == more[i] && more[i..][1..] == more[i + 1..];
  }

  method PushUniqueEach(list: seq<Id>, more: seq<Id>) returns (out: seq<Id>)
    ensures out == PushAll(list, more)
  {
    out := list;
    EmptyConcat(more);
    for i := 0 to |more|
      invariant PushAll(list, more) == PushAll(out, more[i..])
    {
      PushNext(out, more, i);
      if more[i] !in out {
        out := out + [more[i]];
      }
    }
  }

  // ---------------------------------------- what a node waits on, without a memo

  ghost function Rank(order: seq<Id>, id: Id): nat {
    if id in order then Position(order, id) + 1 else 0
  }

  lemma {:induction false} DependencyRanksLower(flow: Flow, order: seq<Id>, a: Id, b: Id)
    requires TopologicalOrder(flow.deps, order) && Points(flow.deps, a, b)
    ensures Rank(order, b) < Rank(order, a)
  {
    if b in flow.deps {
      assert Edge(flow.deps, a, b);
      EdgeDescends(flow.deps, order, a, b);
    }
  }

  /** What a node waits for: its kept dependencies, and behind each excluded one what that waits for. */
  ghost function Effective(flow: Flow, order: seq<Id>, id: Id): seq<Id>
    requires TopologicalOrder(flow.deps, order)
    decreases Rank(order, id), 1, 0
  {
    if id in flow.deps then EffectiveOf(flow, order, id, |flow.deps[id]|) else []
  }

  ghost function EffectiveOf(flow: Flow, order: seq<Id>, id: Id, n: nat): seq<Id>
    requires TopologicalOrder(flow.deps, order) && id in flow.deps && n <= |flow.deps[id]|
    decreases Rank(order, id), 0, n
  {
    if n == 0 then []
    else PushAll(EffectiveOf(flow, order, id, n - 1), Inherited(flow, order, id, flow.deps[id][n - 1]))
  }

  ghost function Inherited(flow: Flow, order: seq<Id>, id: Id, dep: Id): seq<Id>
    requires TopologicalOrder(flow.deps, order) && Points(flow.deps, id, dep)
    decreases Rank(order, id), 0, 0
  {
    if flow.Keeps(dep) then [dep]
    else
      DependencyRanksLower(flow, order, id, dep);
      Effective(flow, order, dep)
  }

  /** A chain of declared dependencies whose inner nodes the mode excludes, ending in one it keeps. */
  ghost predicate SkipsTo(flow: Flow, a: Id, d: Id, chain: seq<Id>) {
    && |chain| >= 2 && chain[0] == a && chain[|chain| - 1] == d && flow.Keeps(d)
    && (forall i :: 0 < i < |chain| ==> Points(flow.deps, chain[i - 1], chain[i]))
    && (forall i :: 0 < i < |chain| - 1 ==> !flow.Keeps(chain[i]))
  }

  lemma {:induction false} EffectiveOfDistinct(flow: Flow, order: seq<Id>, id: Id, n: nat)
    requires TopologicalOrder(flow.deps, order) && id in flow.deps && n <= |flow.deps[id]|
    ensures Ordering.Distinct(EffectiveOf(flow, order, id, n))
  {
    if n > 0 {
      EffectiveOfDistinct(flow, order, id, n - 1);
      PushAllMembers(EffectiveOf(flow, order, id, n - 1), Inherited(flow, order, id, flow.deps[id][n - 1]));
    }
  }

  /** What a node waits on is what some dependency of it stands for. */
  lemma {:induction false} EffectiveOfMembers(flow: Flow, order: seq<Id>, id: Id, n: nat, d: Id)
    requires TopologicalOrder(flow.deps, order) && id in flow.deps && n <= |flow.deps[id]|
    ensures d in EffectiveOf(flow, order, id, n) <==>
            exists i :: 0 <= i < n && d in Inherited(flow, order, id, flow.deps[id][i])
  {
    if n > 0 {
      EffectiveOfMembers(flow, order, id, n - 1, d);
      PushAllMembers(EffectiveOf(flow, order, id, n - 1), Inherited(flow, order, id, flow.deps[id][n - 1]));
    }
  }

  lemma {:induction false} EffectiveIsReached(flow: Flow, order: seq<Id>, id: Id, d: Id) returns (chain: seq<Id>)
    requires TopologicalOrder(flow.deps, order) && d in Effective(flow, order, id)
    ensures SkipsTo(flow, id, d, chain)
    decreases Rank(order, id)
  {
    var deps := flow.deps[id];
    EffectiveOfMembers(flow, order, id, |deps|, d);
    var i :| 0 <= i < |deps| && d in Inherited(flow, order, id, deps[i]);
    if flow.Keeps(deps[i]) {
      chain := [id, d];
    } else {
      DependencyRanksLower(flow, order, id, deps[i]);
      var rest := EffectiveIsReached(flow, order, deps[i], d);
      chain := [id] + rest;
    }
  }

  lemma {:induction false} ReachedIsEffective(flow: Flow, order: seq<Id>, id: Id, d: Id, chain: seq<Id>)
    requires TopologicalOrder(flow.deps, order) && SkipsTo(flow, id, d, chain)
    ensures d in Effective(flow, order, id)
    decreases |chain|
  {
    assert Points(flow.deps, chain[0], chain[1]);
    var deps := flow.deps[id];
    var i :| 0 <= i < |deps| && deps[i] == chain[1];
    if |chain| > 2 {
      var rest := chain[1..];
      forall k | 0 < k < |rest| ensures Points(flow.deps, rest[k - 1], rest[k]) {
        assert Points(flow.deps, chain[k], chain[k + 1]) && rest[k - 1] == chain[k] && rest[k] == chain[k + 1];
      }
      assert forall k :: 0 < k < |rest| - 1 ==> rest[k] == chain[k + 1];
      ReachedIsEffective(flow, order, chain[1], d, rest);
    }
    assert d in Inherited(flow, order, id, deps[i]);
    EffectiveOfMembers(flow, order, id, |deps|, d);
  }

  /** Without duplicates, exactly the kept nodes reached through excluded ones only. */
  lemma {:induction false} EffectiveIsExact(flow: Flow, order: seq<Id>, id: Id, d: Id)
    requires TopologicalOrder(flow.deps, order)
    ensures Ordering.Distinct(Effective(flow, order, id))
    ensures d in Effective(flow, order, id) <==> exists chain :: SkipsTo(flow, id, d, chain)
  {
    if id in flow.deps {
      EffectiveOfDistinct(flow, order, id, |flow.deps[id]|);
    }
    if d in Effective(flow, order, id) {
      var chain := EffectiveIsReached(flow, order, id, d);
    }
    if exists chain :: SkipsTo(flow, id, d, chain) {
      var chain :| SkipsTo(flow, id, d, chain);
      ReachedIsEffective(flow, order, id, d, chain);
    }
  }

  // --------------------------------------------- the order of the work that remains

  ghost predicate Path(g: Graph<Id>, a: Id, b: Id, path: seq<Id>) {
    && |path| >= 2 && path[0] == a && path[|path| - 1] == b
    && (forall i :: 0 < i < |path| ==> Points(g, path[i - 1], path[i]))
  }

  ghost predicate Reaches(g: Graph<Id>, a: Id, b: Id) {
    exists path :: Path(g, a, b, path)
  }

  lemma {:induction false} ReachesThrough(g: Graph<Id>, a: Id, b: Id, c: Id)
    requires Reaches(g, a, b) && Reaches(g, b, c)
    ensures Reaches(g, a, c)
  {
    var p :| Path(g, a, b, p);
    var q :| Path(g, b, c, q);
    var path := p + q[1..];
    forall i | 0 < i < |path| ensures Points(g, path[i - 1], path[i]) {
      if i < |p| {
        assert Points(g, p[i - 1], p[i]) && path[i - 1] == p[i - 1] && path[i] == p[i];
      } else {
        var k := i - |p| + 1;
        assert Points(g, q[k - 1], q[k]) && path[i] == q[k] && path[i - 1] == q[k - 1];
      }
    }
    assert Path(g, a, c, path);
  }

  /** The contracted graph: each kept node with what it waits on in the mode. */
  ghost function Contracted(flow: Flow, order: seq<Id>): Graph<Id>
    requires TopologicalOrder(flow.deps, order)
  {
    map id | id in flow.deps && flow.Keeps(id) :: Effective(flow, order, id)
  }

  lemma {:induction false} ContractedPathExpands(flow: Flow, order: seq<Id>, a: Id, b: Id, path: seq<Id>)
    requires TopologicalOrder(flow.deps, order) && Path(Contracted(flow, order), a, b, path)
    ensures Reaches(flow.deps, a, b)
    decreases |path|
  {
    var h := Contracted(flow, order);
    assert Points(h, path[0], path[1]);
    var chain := EffectiveIsReached(flow, order, a, path[1]);
    assert Path(flow.deps, a, path[1], chain);
    if |path| > 2 {
      var rest := path[1..];
      forall i | 0 < i < |rest| ensures Points(h, rest[i - 1], rest[i]) {
        assert Points(h, path[i], path[i + 1]) && rest[i - 1] == path[i] && rest[i] == path[i + 1];
      }
      ContractedPathExpands(flow, order, path[1], b, rest);
      ReachesThrough(flow.deps, a, path[1], b);
    }
  }

  /** The first kept node after the start of a path. */
  lemma {:induction false} FirstKept(flow: Flow, path: seq<Id>) returns (n: nat)
    requires |path| >= 2 && flow.Keeps(path[|path| - 1])
    ensures 0 < n < |path| && flow.Keeps(path[n]) && forall i :: 0 < i < n ==> !flow.Keeps(path[i])
  {
    n := 1;
    while !flow.Keeps(path[n])
      invariant 0 < n < |path| && forall i :: 0 < i < n ==> !flow.Keeps(path[i])
      decreases |path| - n
    {
      n := n + 1;
    }
  }

  lemma {:induction false} PathContracts(flow: Flow, order: seq<Id>, a: Id, b: Id, path: seq<Id>)
    requires TopologicalOrder(flow.deps, order) && Path(flow.deps, a, b, path) && flow.Keeps(a) && flow.Keeps(b)
    ensures Reaches(Contracted(flow, order), a, b)
    decreases |path|
  {
    var h := Contracted(flow, order);
    var n := FirstKept(flow, path);
    var chain := path[..n + 1];
    assert SkipsTo(flow, a, path[n], chain) by {
      forall i | 0 < i < |chain| ensures Points(flow.deps, chain[i - 1], chain[i]) {
        assert Points(flow.deps, path[i - 1], path[i]) && chain[i - 1] == path[i - 1] && chain[i] == path[i];
      }
    }
    ReachedIsEffective(flow, order, a, path[n], chain);
    assert Points(flow.deps, path[0], path[1]) && Points(h, a, path[n]);
    assert Path(h, a, path[n], [a, path[n]]);
    if n < |path| - 1 {
      var rest := path[n..];
      forall i | 0 < i < |rest| ensures Points(flow.deps, rest[i - 1], rest[i]) {
        assert Points(flow.deps, path[n + i - 1], path[n + i]) && rest[i - 1] == path[n + i - 1] && rest[i] == path[n + i];
      }
      PathContracts(flow, order, path[n], b, rest);
      ReachesThrough(h, a, path[n], b);
    }
  }

  /** Cutting the excluded nodes out keeps exactly the order between the nodes that remain. */
  lemma {:induction false} ContractionKeepsOrder(flow: Flow, order: seq<Id>, a: Id, b: Id)
    requires TopologicalOrder(flow.deps, order) && flow.Keeps(a) && flow.Keeps(b)
    ensures Reaches(flow.deps, a, b) <==> Reaches(Contracted(flow, order), a, b)
  {
    if Reaches(flow.deps, a, b) {
      var path :| Path(flow.deps, a, b, path);
      PathContracts(flow, order, a, b, path);
    }
    if Reaches(Contracted(flow, order), a, b) {
      var path :| Path(Contracted(flow, order), a, b, path);
      ContractedPathExpands(flow, order, a, b, path);
    }
  }

  /** A mode that narrows nothing leaves each declared list as it is exactly when the list repeats nothing. */
  lemma {:induction false} UnnarrowedIsVerbatim(flow: Flow, order: seq<Id>, id: Id)
    requires TopologicalOrder(flow.deps, order) && flow.included.None? && id in flow.deps
    ensures Effective(flow, order, id) == PushAll([], flow.deps[id])
    ensures Effective(flow, order, id) == flow.deps[id] <==> Ordering.Distinct(flow.deps[id])
  {
    var deps := flow.deps[id];
    UnnarrowedPrefix(flow, order, id, |deps|);
    EmptyConcat(deps);
    PushAllMembers([], deps);
    if Ordering.Distinct(deps) {
      PushAllDistinct([], deps);
    }
  }

  /** A list that names one node twice comes back shorter. */
  lemma {:induction false} RepeatIsNotVerbatim(flow: Flow, order: seq<Id>)
    requires flow == Flow(map["a" := ["b", "b"], "b" := []], None) && order == ["b", "a"]
    ensures TopologicalOrder(flow.deps, order) && Effective(flow, order, "a") == ["b"] && flow.deps["a"] == ["b", "b"]
  {
    assert order[..1] == ["b"];
    assert TopologicalOrder(flow.deps, order);
    UnnarrowedIsVerbatim(flow, order, "a");
    var deps := ["b", "b"];
    assert deps[1..] == ["b"] && deps[1..][1..] == [];
    assert PushAll([], deps) == PushAll(["b"], ["b"]) by {
      assert [] + ["b"] == ["b"];
    }
  }

  lemma {:induction false} UnnarrowedPrefix(flow: Flow, order: seq<Id>, id: Id, n: nat)
    requires TopologicalOrder(flow.deps, order) && flow.included.None? && id in flow.deps && n <= |flow.deps[id]|
    ensures EffectiveOf(flow, order, id, n) == PushAll([], flow.deps[id][..n])
  {
    if n > 0 {
      var deps := flow.deps[id];
      UnnarrowedPrefix(flow, order, id, n - 1);
      PushAllAppend([], deps[..n - 1], [deps[n - 1]]);
      assert deps[..n] == deps[..n - 1] + [deps[n - 1]];
    }
  }

  lemma {:induction false} PushAllAppend(list: seq<Id>, a: seq<Id>, b: seq<Id>)
    ensures PushAll(list, a + b) == PushAll(PushAll(list, a), b)
    decreases |a|
  {
    if a == [] {
      EmptyConcat(b);
    } else {
      TailOfConcat(a, b);
      PushAllAppend(if a[0] in list then list else list + [a[0]], a[1..], b);
    }
  }

  lemma {:induction false} PushAllDistinct(list: seq<Id>, more: seq<Id>)
    requires Ordering.Distinct(list + more)
    ensures PushAll(list, more) == list + more
    decreases |more|
  {
    if more == [] {
      EmptyConcat(list);
    } else {
      assert (list + more)[|list|] == more[0];
      assert forall i :: 0 <= i < |list| ==> (list + more)[i] == list[i];
      assert list + [more[0]] + more[1..] == list + more;
      PushAllDistinct(list + [more[0]], more[1..]);
    }
  }

  // ------------------------------------------------------------- the memoised walk

  function ById(nodes: seq<Node>): Graph<Id> {
    if nodes == [] then map[]
    else ById(nodes[..|nodes| - 1])[nodes[|nodes| - 1].id := nodes[|nodes| - 1].dependsOn]
  }

  /** Of the nodes that share an id the last one declared is the node. */
  lemma {:induction false} LastDeclaredIsNode(nodes: seq<Node>, k: nat)
    requires k < |nodes| && forall j :: k < j < |nodes| ==> nodes[j].id != nodes[k].id
    ensures nodes[k].id in ById(nodes) && ById(nodes)[nodes[k].id] == nodes[k].dependsOn
    decreases |nodes|
  {
    if k < |nodes| - 1 {
      LastDeclaredIsNode(nodes[..|nodes| - 1], k);
    }
  }

  class Contraction {
    const flow: Flow
    /** Every id a walk can meet. */
    ghost const universe: set<Id>
    /** An order with dependencies first, on a graph that has one. */
    ghost const order: seq<Id>
    var memo: map<Id, seq<Id>>
    var visiting: seq<Id>

    constructor (flow: Flow, ghost universe: set<Id>, ghost order: seq<Id>)
      ensures this.flow == flow && this.universe == universe && this.order == order
      ensures memo == map[] && visiting == []
    {
      this.flow := flow;
      this.universe := universe;
      this.order := order;
      memo := map[];
      visiting := [];
    }

    ghost predicate Closed() {
      forall a, b :: Points(flow.deps, a, b) ==> b in universe
    }

    ghost predicate Ordered() {
      TopologicalOrder(flow.deps, order)
    }

    /** On an ordered graph every memo entry is the answer without a memo. */
    ghost predicate MemoHolds()
      reads this
    {
      Ordered() ==> forall id :: id in memo ==> memo[id] == Effective(flow, order, id)
    }

    ghost function Unvisited(): set<Id>
      reads this
    {
      universe - set x | x in visiting
    }

    ghost predicate AllRankAbove(id: Id)
      reads this
    {
      Ordered() ==> forall i :: 0 <= i < |visiting| ==> Rank(order, id) < Rank(order, visiting[i])
    }

    method EffectiveDependencies(id: Id) returns (deps: seq<Id>)
      requires Closed() && MemoHolds() && id in universe && AllRankAbove(id)
      modifies this
      ensures MemoHolds() && visiting == old(visiting)
      ensures Ordered() ==> deps == Effective(flow, order, id)
      ensures old(memo).Keys <= memo.Keys
      ensures id in memo || id in visiting
      ensures forall x :: x in memo && x !in old(memo) ==> x == id || !flow.Keeps(x)
      decreases Unvisited()
    {
      if id in memo {
        return memo[id];
      }
      if id in visiting {
        return [];
      }
      visiting := visiting + [id];
      var out: seq<Id> := [];
      if id in flow.deps {
        var declared := flow.deps[id];
        for k := 0 to |declared|
          invariant MemoHolds() && visiting == old(visiting) + [id]
          invariant old(memo).Keys <= memo.Keys
          invariant forall x :: x in memo && x !in old(memo) ==> !flow.Keeps(x)
          invariant Ordered() ==> out == EffectiveOf(flow, order, id, k)
        {
          var dep := declared[k];
          assert Points(flow.deps, id, dep);
          var inherited := [dep];
          if !flow.Keeps(dep) {
            if Ordered() {
              DependencyRanksLower(flow, order, id, dep);
            }
            assert id in old(Unvisited()) && id !in Unvisited() && Unvisited() <= old(Unvisited());
            inherited := EffectiveDependencies(dep);
          }
          out := PushUniqueEach(out, inherited);
        }
      }
      visiting := visiting[..|visiting| - 1];
      memo := memo[id := out];
      return out;
    }
  }

  /** Every id a workflow names, as a node or as a dependency. */
  ghost function IdsMet(nodes: seq<Node>): set<Id> {
    if nodes == [] then {}
    else
      var last := nodes[|nodes| - 1];
      IdsMet(nodes[..|nodes| - 1]) + {last.id} + set x | x in last.dependsOn
  }

  lemma {:induction false} IdsMetIsClosed(nodes: seq<Node>)
    ensures forall i :: 0 <= i < |nodes| ==> nodes[i].id in IdsMet(nodes)
    ensures forall a, b :: Points(ById(nodes), a, b) ==> b in IdsMet(nodes)
  {
    if nodes != [] {
      var last, before := nodes[|nodes| - 1], nodes[..|nodes| - 1];
      IdsMetIsClosed(before);
      forall a, b | Points(ById(nodes), a, b) ensures b in IdsMet(nodes) {
        if a != last.id {
          assert Points(ById(before), a, b);
        }
      }
      forall i | 0 <= i < |nodes| ensures nodes[i].id in IdsMet(nodes) {
        if i < |before| { assert before[i] == nodes[i]; }
      }
    }
  }

  /**
   The dependencies each kept node waits on. On a graph with an order they are the
   answer without a memo; on any graph the walk ends, and exactly the kept nodes have
   an entry.
   */
  method DependenciesInMode(nodes: seq<Node>, included: Option<set<Id>>, ghost order: seq<Id>)
    returns (waits: map<Id, seq<Id>>)
    ensures var flow := Flow(ById(nodes), included);
            && (forall id :: id in waits <==> (exists i :: 0 <= i < |nodes| && nodes[i].id == id) && flow.Keeps(id))
            && (TopologicalOrder(flow.deps, order) ==>
                  forall id :: id in waits ==> waits[id] == Effective(flow, order, id))
  {
    var flow := Flow(ById(nodes), included);
    var walk := new Contraction(flow, IdsMet(nodes), order);
    IdsMetIsClosed(nodes);
    for k := 0 to |nodes|
      invariant walk.flow == flow && walk.order == order && walk.universe == IdsMet(nodes)
      invariant walk.Closed() && walk.MemoHolds() && walk.visiting == []
      invariant forall i :: 0 <= i < k && flow.Keeps(nodes[i].id) ==> nodes[i].id in walk.memo
      invariant forall x :: x in walk.memo && flow.Keeps(x) ==> exists i :: 0 <= i < |nodes| && nodes[i].id == x
    {
      if flow.Keeps(nodes[k].id) {
        var _ := walk.EffectiveDependencies(nodes[k].id);
      }
    }
    waits := map id | id in walk.memo && flow.Keeps(id) :: walk.memo[id];
  }
}
