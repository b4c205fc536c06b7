/** Systems and the task graph that orders them (crates/xylux-ecs/src/system.rs). */
module Systems {
  import opened Wrappers

  /** `System`: an opaque step over the world state `W`. */
  datatype System<!W> = System(func: W -> W)

  /** One entry of the `systems` map: the system and the names it depends on. */
  datatype Node<!W> = Node(system: System<W>, dependencies: seq<string>)

  type Graph<!W> = map<string, Node<W>>

  /** The dependencies `visit` follows from `name`: none for a name that has
      no registered system. */
  function Deps<W>(g: Graph<W>, name: string): seq<string>
  {
    if name in g then g[name].dependencies else []
  }

  /** Every name the sort can meet: registered names and the names they depend on. */
  ghost function Names<W>(g: Graph<W>): set<string>
  {
    g.Keys + set n, d | n in g && d in g[n].dependencies :: d
  }

  /** `p` follows dependency edges from its first name to its last. */
  ghost predicate IsWalk<W>(g: Graph<W>, p: seq<string>)
  {
    forall i :: 0 <= i < |p| - 1 ==> p[i + 1] in Deps(g, p[i])
  }

  /** `name` depends on itself, directly or transitively. */
  ghost predicate CycleThrough<W>(g: Graph<W>, name: string)
  {
    exists p :: |p| >= 2 && p[0] == name && p[|p| - 1] == name && IsWalk(g, p)
  }

  predicate NoDuplicates(s: seq<string>)
  {
    forall i, j :: 0 <= i < j < |s| ==> s[i] != s[j]
  }

  /** Every name of `order` comes after each of its dependencies. */
  ghost predicate DepsFirst<W>(g: Graph<W>, order: seq<string>)
  {
    forall i, d :: 0 <= i < |order| && d in Deps(g, order[i]) ==> d in order[..i]
  }

  /** What a successful sort produces: each name once, every registered name
      present, nothing but names of the graph, dependencies first. */
  ghost predicate IsExecutionOrder<W>(g: Graph<W>, order: seq<string>)
  {
    && NoDuplicates(order)
    && (forall n :: n in g ==> n in order)
    && (forall i :: 0 <= i < |order| ==> order[i] in Names(g))
    && DepsFirst(g, order)
  }

  lemma DepInNames<W>(g: Graph<W>, n: string, d: string)
    requires d in Deps(g, n)
    ensures d in Names(g)
  {
    assert n in g;
    assert d in (set n', d' | n' in g && d' in g[n'].dependencies :: d');
  }

  lemma WalkExtend<W>(g: Graph<W>, p: seq<string>, x: string)
    requires IsWalk(g, p) && |p| > 0 && x in Deps(g, p[|p| - 1])
    ensures IsWalk(g, p + [x])
  {
    var q := p + [x];
    forall i | 0 <= i < |q| - 1
      ensures q[i + 1] in Deps(g, q[i])
    {
      if i < |p| - 1 {
        assert q[i] == p[i] && q[i + 1] == p[i + 1];
      }
    }
  }

  lemma WalkSuffix<W>(g: Graph<W>, p: seq<string>, j: nat)
    requires IsWalk(g, p) && j <= |p|
    ensures IsWalk(g, p[j..])
  {
    var q := p[j..];
    forall i | 0 <= i < |q| - 1
      ensures q[i + 1] in Deps(g, q[i])
    {
      assert q[i] == p[j + i] && q[i + 1] == p[j + i + 1];
    }
  }

  /** The inner `visit` of `compute_execution_order`: depth-first, marking
      `node` in `tempMark` while its dependencies are visited, then moving it
      to `visited` and pushing it to `order`. Meeting a node that is still
      in `tempMark` is the cycle panic, reported as `cycle == Some(node)`.
      `path` is the ghost stack of nodes whose visit is in progress. */
  method Visit<W>(node: string, g: Graph<W>, visited: set<string>, tempMark: set<string>,
                  order: seq<string>, ghost path: seq<string>)
    returns (visited': set<string>, tempMark': set<string>, order': seq<string>, cycle: Option<string>)
    requires node in Names(g)
    requires forall x :: x in tempMark <==> x in path
    requires IsWalk(g, path + [node])
    requires visited !! tempMark
    requires forall x :: x in visited <==> x in order
    requires NoDuplicates(order) && DepsFirst(g, order)
    requires forall i :: 0 <= i < |order| ==> order[i] in Names(g)
    ensures cycle.Some? ==> CycleThrough(g, cycle.value)
    ensures node !in visited && node in tempMark ==> cycle == Some(node)
    ensures cycle.None? ==>
      && tempMark' == tempMark
      && node in visited' && visited' !! tempMark
      && (forall x :: x in visited' <==> x in order')
      && NoDuplicates(order') && DepsFirst(g, order')
      && (forall i :: 0 <= i < |order'| ==> order'[i] in Names(g))
      && order <= order'
    decreases Names(g) - tempMark
  {
    if node in visited {
      return visited, tempMark, order, None;
    }
    if node in tempMark {
      ghost var j :| 0 <= j < |path| && path[j] == node;
      WalkSuffix(g, path + [node], j);
      assert (path + [node])[j..] == path[j..] + [node];
      return visited, tempMark, order, Some(node);
    }
    tempMark' := tempMark + {node};
    visited', order' := visited, order;
    var deps := Deps(g, node);
    var i := 0;
    while i < |deps|
      invariant i <= |deps|
      invariant tempMark' == tempMark + {node}
      invariant visited' !! tempMark'
      invariant forall x :: x in visited' <==> x in order'
      invariant NoDuplicates(order') && DepsFirst(g, order')
      invariant forall k :: 0 <= k < |order'| ==> order'[k] in Names(g)
      invariant order <= order'
      invariant forall k :: 0 <= k < i ==> deps[k] in visited'
    {
      DepInNames(g, node, deps[i]);
      WalkExtend(g, path + [node], deps[i]);
      assert path + [node] + [deps[i]] == (path + [node]) + [deps[i]];
      var c;
      visited', tempMark', order', c := Visit(deps[i], g, visited', tempMark', order', path + [node]);
      if c.Some? {
        return visited', tempMark', order', c;
      }
      i := i + 1;
    }
    tempMark' := tempMark' - {node};
    visited' := visited' + {node};
    ghost var before := order';
    order' := order' + [node];
    assert DepsFirst(g, order') by {
      forall k, d | 0 <= k < |order'| && d in Deps(g, order'[k])
        ensures d in order'[..k]
      {
        if k < |before| {
          assert order'[k] == before[k] && order'[..k] == before[..k];
        } else {
          assert order'[..k] == before;
        }
      }
    }
    cycle := None;
  }

  /** `compute_execution_order`: clear the order, then visit every registered
      name in the map's iteration order (an unspecified choice here). */
  method ComputeExecutionOrder<W>(g: Graph<W>) returns (order: seq<string>, cycle: Option<string>)
    ensures cycle.Some? ==> CycleThrough(g, cycle.value)
    ensures cycle.None? ==> IsExecutionOrder(g, order)
  {
    var visited: set<string> := {};
    var tempMark: set<string> := {};
    order := [];
    var pending := g.Keys;
    while pending != {}
      invariant pending <= g.Keys
      invariant tempMark == {} && visited !! tempMark
      invariant forall x :: x in visited <==> x in order
      invariant NoDuplicates(order) && DepsFirst(g, order)
      invariant forall i :: 0 <= i < |order| ==> order[i] in Names(g)
      invariant forall n :: n in g && n !in pending ==> n in order
      decreases pending
    {
      var node :| node in pending;
      pending := pending - {node};
      visited, tempMark, order, cycle := Visit(node, g, visited, tempMark, order, []);
      if cycle.Some? {
        return;
      }
    }
    cycle := None;
  }

  /** The first position of `x` in `s`. */
  function IndexOf(s: seq<string>, x: string): (i: nat)
    requires x in s
    ensures i < |s| && s[i] == x && x !in s[..i]
  {
    if s[0] == x then 0
    else
      assert x in s[1..];
      var k := IndexOf(s[1..], x);
      assert s[1..][..k] == s[1..k + 1];
      k + 1
  }

  /** In an execution order, whatever a name depends on, directly or through
      other names, comes strictly earlier. */
  lemma {:induction false} DependenciesComeFirst<W>(g: Graph<W>, order: seq<string>, p: seq<string>)
    requires NoDuplicates(order) && DepsFirst(g, order)
    requires IsWalk(g, p) && |p| >= 2 && p[0] in order
    ensures p[|p| - 1] in order && IndexOf(order, p[|p| - 1]) < IndexOf(order, p[0])
    decreases |p|
  {
    var i := IndexOf(order, p[0]);
    assert p[1] in Deps(g, order[i]);
    assert p[1] in order[..i];
    var j :| 0 <= j < i && order[..i][j] == p[1];
    assert IndexOf(order, p[1]) == j;
    if |p| > 2 {
      WalkSuffix(g, p, 1);
      DependenciesComeFirst(g, order, p[1..]);
    }
  }

  /** A graph with an execution order has no dependency cycle, so a cyclic
      configuration can never be sorted: the sort must report a cycle. */
  lemma ExecutionOrderAcyclic<W>(g: Graph<W>, order: seq<string>, n: string)
    requires IsExecutionOrder(g, order)
    ensures !CycleThrough(g, n)
  {
    if CycleThrough(g, n) {
      var p :| |p| >= 2 && p[0] == n && p[|p| - 1] == n && IsWalk(g, p);
      assert p[1] in Deps(g, p[0]);
      DependenciesComeFirst(g, order, p);
      assert false;
    }
  }

  /** The names of `order` that `run` finds a system for, in order. */
  function Invoked<W>(order: seq<string>, g: Graph<W>): (r: seq<string>)
    ensures forall n :: n in r ==> n in g
  {
    if order == [] then []
    else
      var last := order[|order| - 1];
      Invoked(order[..|order| - 1], g) + (if last in g then [last] else [])
  }

  /** `Invoked` keeps exactly the registered names of `order`. */
  lemma {:induction false} InvokedMembers<W>(order: seq<string>, g: Graph<W>)
    ensures forall n :: n in Invoked(order, g) <==> n in order && n in g
  {
    if order != [] {
      var prefix := order[..|order| - 1];
      InvokedMembers(prefix, g);
      assert order == prefix + [order[|order| - 1]];
    }
  }

  /** Over an execution order, `run` calls every registered system exactly
      once, and a registered dependency's system before its dependent's. */
  lemma RunInvokesEachOnce<W>(order: seq<string>, g: Graph<W>)
    requires IsExecutionOrder(g, order)
    ensures forall n :: n in Invoked(order, g) <==> n in g
    ensures NoDuplicates(Invoked(order, g))
    ensures forall i, d :: 0 <= i < |Invoked(order, g)| && d in Deps(g, Invoked(order, g)[i]) && d in g ==>
      d in Invoked(order, g)[..i]
  {
    InvokedMembers(order, g);
    InvokedNoDuplicates(order, g);
    InvokedDepsFirst(order, g);
  }

  /** A dependency without a registered system still has its place in an
      execution order, ahead of its dependent; `run` then skips it. */
  lemma UnregisteredDependencyOrdered<W>(g: Graph<W>, order: seq<string>, n: string, d: string)
    requires IsExecutionOrder(g, order)
    requires n in g && d in g[n].dependencies
    ensures d in order && IndexOf(order, d) < IndexOf(order, n)
    ensures d !in g ==> d !in Invoked(order, g)
  {
    var i := IndexOf(order, n);
    assert d in Deps(g, order[i]);
    assert d in order[..i];
    InvokedMembers(order, g);
  }

  /** Dropping unregistered names keeps a duplicate-free order duplicate-free. */
  lemma {:induction false} InvokedNoDuplicates<W>(order: seq<string>, g: Graph<W>)
    requires NoDuplicates(order)
    ensures NoDuplicates(Invoked(order, g))
  {
    if order != [] {
      var prefix := order[..|order| - 1];
      var last := order[|order| - 1];
      assert NoDuplicates(prefix);
      InvokedNoDuplicates(prefix, g);
      InvokedMembers(prefix, g);
      assert last !in prefix;
    }
  }

  /** Dropping unregistered names keeps every registered dependency ahead of
      its dependent. */
  lemma {:induction false} InvokedDepsFirst<W>(order: seq<string>, g: Graph<W>)
    requires DepsFirst(g, order)
    ensures forall i, d :: 0 <= i < |Invoked(order, g)| && d in Deps(g, Invoked(order, g)[i]) && d in g ==>
      d in Invoked(order, g)[..i]
  {
    if order != [] {
      var prefix := order[..|order| - 1];
      var last := order[|order| - 1];
      assert DepsFirst(g, prefix) by {
        forall i, d | 0 <= i < |prefix| && d in Deps(g, prefix[i])
          ensures d in prefix[..i]
        {
          assert order[i] == prefix[i] && order[..i] == prefix[..i];
        }
      }
      InvokedDepsFirst(prefix, g);
      var r := Invoked(order, g);
      var rp := Invoked(prefix, g);
      if last in g {
        assert r == rp + [last];
        InvokedMembers(prefix, g);
        forall d | d in Deps(g, last) && d in g
          ensures d in rp
        {
          assert d in order[..|order| - 1];
        }
        forall i, d | 0 <= i < |r| && d in Deps(g, r[i]) && d in g
          ensures d in r[..i]
        {
          if i < |rp| {
            assert r[i] == rp[i] && r[..i] == rp[..i];
          } else {
            assert r[..i] == rp;
          }
        }
      } else {
        assert r == rp;
      }
    }
  }


  /** Applying the systems of `names` one after another, first name first. */
  function Apply<W>(names: seq<string>, g: Graph<W>, world: W): W
    requires forall n :: n in names ==> n in g
  {
    if names == [] then world
    else g[names[|names| - 1]].system.func(Apply(names[..|names| - 1], g, world))
  }

  /** `TaskGraph`: the systems by name and the cached execution order. */
  class TaskGraph<W> {
    var systems: Graph<W>
    var executionOrder: seq<string>

    /** The cached order is an execution order of the registered systems. */
    ghost predicate Valid()
      reads this
    {
      IsExecutionOrder(systems, executionOrder)
    }

    /** `TaskGraph::new`: no systems, empty order. */
    constructor ()
      ensures Valid() && systems == map[] && executionOrder == []
    {
      systems := map[];
      executionOrder := [];
    }

    /** `add_system`: insert or replace the entry under `name`, then recompute
        the order; a cycle is the panic, reported with the name it was met at. */
    method AddSystem(name: string, dependencies: seq<string>, system: System<W>) returns (cycle: Option<string>)
      modifies this
      ensures systems == old(systems)[name := Node(system, dependencies)]
      ensures cycle.Some? ==> CycleThrough(systems, cycle.value)
      ensures cycle.None? ==> Valid()
    {
      systems := systems[name := Node(system, dependencies)];
      executionOrder, cycle := ComputeExecutionOrder(systems);
    }

    /** `run`: call the system of every name of the order that has one, in
        order; the map of systems is left as it was. */
    method Run(world: W) returns (result: W)
      ensures result == Apply(Invoked(executionOrder, systems), systems, world)
    {
      result := world;
      var i := 0;
      while i < |executionOrder|
        invariant i <= |executionOrder|
        invariant result == Apply(Invoked(executionOrder[..i], systems), systems, world)
      {
        var name := executionOrder[i];
        ghost var done := Invoked(executionOrder[..i], systems);
        assert executionOrder[..i + 1][..i] == executionOrder[..i];
        if name in systems {
          result := systems[name].system.func(result);
          assert Invoked(executionOrder[..i + 1], systems) == done + [name];
          assert (done + [name])[..|done|] == done;
        } else {
          assert Invoked(executionOrder[..i + 1], systems) == done;
        }
        i := i + 1;
      }
      assert executionOrder[..i] == executionOrder;
    }
  }
}
