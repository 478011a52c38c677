/**
 Cycle detection over a dependency graph: a depth-first walk that paints ids white,
 gray while they are on its stack, and black once every dependency of theirs is done.
 */
module CycleSearch {
  import opened Wrappers

  /** The ids each id points to; an id absent from the map is no node of the graph. */
  type Graph<T> = map<T, seq<T>>

  predicate Edge<T(==)>(g: Graph<T>, a: T, b: T) {
    a in g && b in g && b in g[a]
  }

  predicate IsWalk<T(==)>(g: Graph<T>, w: seq<T>) {
    forall i :: 0 < i < |w| ==> Edge(g, w[i - 1], w[i])
  }

  predicate ClosedWalk<T(==)>(g: Graph<T>, w: seq<T>) {
    |w| >= 2 && w[0] == w[|w| - 1] && IsWalk(g, w)
  }

  /** A closed walk that repeats no id but the one that closes it. */
  predicate SimpleCycle<T(==)>(g: Graph<T>, c: seq<T>) {
    ClosedWalk(g, c) && forall i, j :: 0 <= i < j < |c| - 1 ==> c[i] != c[j]
  }

  ghost predicate Acyclic<T(!new)>(g: Graph<T>) {
    forall w :: !ClosedWalk(g, w)
  }

  /** Every id stands after each of its dependencies that is a node. */
  ghost predicate DependenciesFirst<T(!new)>(g: Graph<T>, order: seq<T>) {
    && (forall i :: 0 <= i < |order| ==> order[i] in g)
    && (forall i, j :: 0 <= i < j < |order| ==> order[i] != order[j])
    && (forall i, b :: 0 <= i < |order| && Edge(g, order[i], b) ==> b in order[..i])
  }

  /** An order of the whole graph with dependencies first. */
  ghost predicate TopologicalOrder<T(!new)>(g: Graph<T>, order: seq<T>) {
    DependenciesFirst(g, order) && forall id :: id in g ==> id in order
  }

  // ------------------------------------------------- an order leaves no cycle

  ghost function Position<T>(order: seq<T>, id: T): (i: nat)
    requires id in order
    ensures i < |order| && order[i] == id
  {
    var i :| 0 <= i < |order| && order[i] == id;
    i
  }

  lemma {:induction false} EdgeDescends<T(!new)>(g: Graph<T>, order: seq<T>, a: T, b: T)
    requires DependenciesFirst(g, order) && a in order && Edge(g, a, b)
    ensures b in order && Position(order, b) < Position(order, a)
  {
    var i := Position(order, a);
    assert b in order[..i];
    var j :| 0 <= j < i && order[..i][j] == b;
    assert order[j] == b;
  }

  lemma {:induction false} WalkDescends<T(!new)>(g: Graph<T>, order: seq<T>, w: seq<T>, n: nat)
    requires TopologicalOrder(g, order) && IsWalk(g, w) && 0 < n < |w|
    ensures w[0] in order && w[n] in order && Position(order, w[n]) < Position(order, w[0])
  {
    assert Edge(g, w[n - 1], w[n]);
    if n > 1 {
      WalkDescends(g, order, w, n - 1);
    }
    EdgeDescends(g, order, w[n - 1], w[n]);
  }

  lemma {:induction false} OrderedIsAcyclic<T(!new)>(g: Graph<T>, order: seq<T>)
    requires TopologicalOrder(g, order)
    ensures Acyclic(g)
  {
    forall w | ClosedWalk(g, w) ensures false {
      WalkDescends(g, order, w, |w| - 1);
    }
  }

  // ------------------------------------------------------------------- the walk

  lemma {:induction false} OneMoreInOrder<T(!new)>(g: Graph<T>, order: seq<T>, id: T)
    requires DependenciesFirst(g, order) && id in g && id !in order && forall b :: Edge(g, id, b) ==> b in order
    ensures DependenciesFirst(g, order + [id])
  {
    var more := order + [id];
    assert more[..|more| - 1] == order;
    assert forall i :: 0 <= i < |order| ==> more[..i] == order[..i];
  }

  /** A gray id carries its place on the stack. */
  datatype Color = White | Gray(at: nat) | Black

  /** The gray ids are the stack, each at its place, and the stack is a walk. */
  ghost predicate OnStack<T(!new)>(g: Graph<T>, color: map<T, Color>, stack: seq<T>) {
    && color.Keys == g.Keys
    && (forall i :: 0 <= i < |stack| ==> stack[i] in g && color[stack[i]] == Gray(i))
    && (forall id :: id in g && color[id].Gray? ==> id in stack)
    && IsWalk(g, stack)
  }

  /** The black ids are the finished ones, dependencies first. */
  ghost predicate AreFinished<T(!new)>(g: Graph<T>, color: map<T, Color>, finished: seq<T>) {
    && color.Keys == g.Keys
    && (forall id :: id in g ==> (color[id].Black? <==> id in finished))
    && DependenciesFirst(g, finished)
  }

  ghost function WhitesOf<T>(color: map<T, Color>): set<T> {
    set id | id in color && color[id].White?
  }

  lemma {:induction false} StackEntered<T(!new)>(g: Graph<T>, color: map<T, Color>, stack: seq<T>, id: T)
    requires OnStack(g, color, stack) && id in g && color[id].White? && (stack != [] ==> Edge(g, stack[|stack| - 1], id))
    ensures OnStack(g, color[id := Gray(|stack|)], stack + [id])
  {
    var more := stack + [id];
    forall x | x in g && color[id := Gray(|stack|)][x].Gray? ensures x in more {
      if x == id {
        assert more[|stack|] == id;
      }
    }
  }

  lemma {:induction false} StackLeft<T(!new)>(g: Graph<T>, color: map<T, Color>, stack: seq<T>, id: T)
    requires OnStack(g, color, stack) && stack != [] && id == stack[|stack| - 1]
    ensures OnStack(g, color[id := Black], stack[..|stack| - 1])
  {
    var rest := stack[..|stack| - 1];
    forall x | x in g && color[id := Black][x].Gray? ensures x in rest {
      var i :| 0 <= i < |stack| && stack[i] == x;
      assert rest[i] == x;
    }
  }

  lemma {:induction false} OneMoreFinished<T(!new)>(g: Graph<T>, color: map<T, Color>, finished: seq<T>, id: T)
    requires AreFinished(g, color, finished) && id in g && color[id].Gray? && forall b :: Edge(g, id, b) ==> color[b].Black?
    ensures AreFinished(g, color[id := Black], finished + [id])
  {
    OneMoreInOrder(g, finished, id);
  }

  ghost predicate Includes<T(!new)>(all: seq<T>, some: seq<T>) {
    forall x :: x in some ==> x in all
  }

  /** The first `k` of `deps` that are nodes are finished. */
  ghost predicate DoneUpTo<T(!new)>(g: Graph<T>, deps: seq<T>, finished: seq<T>, k: nat) {
    forall i :: 0 <= i < |deps| && i < k && deps[i] in g ==> deps[i] in finished
  }

  lemma {:induction false} CycleIsClosed<T(!new)>(g: Graph<T>, cycle: seq<T>)
    requires SimpleCycle(g, cycle)
    ensures !Acyclic(g)
  {
  }

  lemma {:induction false} AllFinished<T(!new)>(g: Graph<T>, ids: seq<T>, finished: seq<T>)
    requires DependenciesFirst(g, finished) && Includes(finished, ids) && forall id :: id in g ==> id in ids
    ensures TopologicalOrder(g, finished) && Acyclic(g)
  {
    OrderedIsAcyclic(g, finished);
  }

  class Walk<T(==,!new)> {
    const graph: Graph<T>
    var color: map<T, Color>
    var stack: seq<T>
    ghost var finished: seq<T>

    constructor (graph: Graph<T>)
      ensures this.graph == graph && Valid() && stack == [] && finished == []
      ensures forall id :: id in graph ==> color[id].White?
    {
      this.graph := graph;
      color := map id | id in graph :: White;
      stack := [];
      finished := [];
    }

    ghost predicate Valid()
      reads this
    {
      OnStack(graph, color, stack) && AreFinished(graph, color, finished)
    }

    ghost function Whites(): set<T>
      reads this
    {
      WhitesOf(color)
    }

    /** Paints `id` gray on top of the stack. */
    method Enter(id: T)
      requires Valid() && id in graph && color[id].White?
      requires stack != [] ==> Edge(graph, stack[|stack| - 1], id)
      modifies this
      ensures Valid() && stack == old(stack) + [id] && finished == old(finished)
      ensures Whites() == old(Whites()) - {id}
    {
      StackEntered(graph, color, stack, id);
      color := color[id := Gray(|stack|)];
      stack := stack + [id];
    }

    /** Paints the top of the stack black, all its dependencies being black. */
    method Leave(id: T)
      requires Valid() && stack != [] && id == stack[|stack| - 1]
      requires forall b :: Edge(graph, id, b) ==> color[b].Black?
      modifies this
      ensures Valid() && stack == old(stack)[..|old(stack)| - 1] && finished == old(finished) + [id]
      ensures color[id].Black? && Whites() == old(Whites())
    {
      StackLeft(graph, color, stack, id);
      OneMoreFinished(graph, color, finished, id);
      stack := stack[..|stack| - 1];
      color := color[id := Black];
      finished := finished + [id];
    }

    /** The part of the stack from a gray id on, closed by it. */
    lemma {:induction false} GrayClosesCycle(dep: T, cycle: seq<T>)
      requires Valid() && stack != [] && Edge(graph, stack[|stack| - 1], dep) && color[dep].Gray?
      requires color[dep].at <= |stack| && cycle == stack[color[dep].at..] + [dep]
      ensures SimpleCycle(graph, cycle)
    {
      var at := color[dep].at;
      assert dep in stack;
      assert stack[at] == dep && cycle[0] == dep;
      forall i | 0 < i < |cycle| ensures Edge(graph, cycle[i - 1], cycle[i]) {
        assert cycle[i - 1] == stack[at + i - 1];
        if i < |cycle| - 1 {
          assert cycle[i] == stack[at + i];
        }
      }
      forall i, j | 0 <= i < j < |cycle| - 1 ensures cycle[i] != cycle[j] {
        assert cycle[i] == stack[at + i] && cycle[j] == stack[at + j];
      }
    }

    method Visit(id: T) returns (cycle: Option<seq<T>>)
      requires Valid() && id in graph && color[id].White?
      requires stack != [] ==> Edge(graph, stack[|stack| - 1], id)
      modifies this
      ensures cycle.Some? ==> SimpleCycle(graph, cycle.value)
      ensures cycle.None? ==> Valid() && stack == old(stack) && color[id].Black?
      ensures cycle.None? ==> Includes(finished, old(finished)) && Whites() <= old(Whites())
      decreases Whites()
    {
      Enter(id);
      var deps := graph[id];
      for k := 0 to |deps|
        invariant Valid() && stack == old(stack) + [id]
        invariant Includes(finished, old(finished)) && Whites() <= old(Whites()) - {id}
        invariant DoneUpTo(graph, deps, finished, k)
      {
        var dep := deps[k];
        if dep !in graph {
          continue;
        }
        assert Edge(graph, id, dep);
        if color[dep].Gray? {
          cycle := Some(Close(dep));
          return;
        } else if color[dep].White? {
          cycle := Visit(dep);
          if cycle.Some? {
            return;
          }
        }
      }
      Leave(id);
      return None;
    }

    /** Visits each id that is still white. */
    method VisitEach(ids: seq<T>) returns (cycle: Option<seq<T>>)
      requires Valid() && stack == [] && forall id :: id in ids ==> id in graph
      modifies this
      ensures cycle.Some? ==> SimpleCycle(graph, cycle.value)
      ensures cycle.None? ==> DependenciesFirst(graph, finished) && Includes(finished, ids)
    {
      for k := 0 to |ids|
        invariant Valid() && stack == [] && DoneUpTo(graph, ids, finished, k)
      {
        var id := ids[k];
        assert id in ids;
        if color[id].White? {
          cycle := Visit(id);
          if cycle.Some? {
            return;
          }
        }
      }
      return None;
    }

    /** The cycle a gray id closes. */
    function Close(dep: T): (cycle: seq<T>)
      reads this
      requires Valid() && stack != [] && Edge(graph, stack[|stack| - 1], dep) && color[dep].Gray?
      ensures SimpleCycle(graph, cycle)
    {
      assert dep in stack;
      var cycle := stack[color[dep].at..] + [dep];
      GrayClosesCycle(dep, cycle);
      cycle
    }
  }

  /**
   One cycle, or none exactly when the graph has none: `order` is then every id after
   its dependencies. The roots are the graph's ids in the order its map keeps them.
   */
  method FindCycle<T(==,!new)>(graph: Graph<T>, ids: seq<T>) returns (cycle: Option<seq<T>>, ghost order: seq<T>)
    requires forall id :: id in graph <==> id in ids
    ensures cycle.Some? ==> SimpleCycle(graph, cycle.value)
    ensures cycle.None? ==> TopologicalOrder(graph, order)
    ensures cycle.None? <==> Acyclic(graph)
  {
    var walk := new Walk(graph);
    cycle := walk.VisitEach(ids);
    order := walk.finished;
    if cycle.Some? {
      CycleIsClosed(graph, cycle.value);
    } else {
      AllFinished(graph, ids, order);
    }
  }
}
