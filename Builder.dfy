/** The builder: it registers systems, one node per system type, and turns
    the registrations into a context whose batches follow the dependency
    levels. */
module BuilderModel {
  import opened Common
  import opened Levels
  import opened Planner
  import opened NodeModel
  import opened RunModel
  import opened ContextModel

  /** Registration as the guard is written: it asks only whether this very
      node is registered yet. */
  function RegisterAsWritten<N(==)>(registered: seq<N>, node: N): seq<N> {
    if node in registered then registered else registered + [node]
  }

  /** A node made on the spot for the second system of a registered type is
      never registered yet, so the guard lets it in: two nodes of one type. */
  lemma AsWrittenRegistersTypeTwice<N, T>(registered: seq<N>, node: N, typeOf: N -> T)
    requires node !in registered
    requires exists i :: 0 <= i < |registered| && typeOf(registered[i]) == typeOf(node)
    ensures var r := RegisterAsWritten(registered, node);
      exists i, j :: 0 <= i < j < |r| && typeOf(r[i]) == typeOf(r[j])
  {
    var r := RegisterAsWritten(registered, node);
    var i :| 0 <= i < |registered| && typeOf(registered[i]) == typeOf(node);
    assert r[i] == registered[i] && r[|registered|] == node;
  }

  /** Registration as intended: a system whose type is already registered is
      refused, naming that type; any other is appended, and registered types
      stay distinct. */
  function Register<T(==)>(types: seq<T>, system: T): (r: Result<seq<T>, Error<T>>)
    requires NoDup(types)
    ensures r.Failure? <==> system in types
    ensures r.Failure? ==> r.error == Duplicate(system)
    ensures r.Success? ==> NoDup(r.value) && Elems(r.value) == Elems(types) + {system}
  {
    if system in types then Failure(Duplicate(system))
    else
      NoDupConcat(types, [system]);
      ElemsConcat(types, [system]);
      Success(types + [system])
  }

  /** The system types of a set of registration indices. */
  function TypesOf<T>(types: seq<T>, c: set<nat>): set<T> {
    set i | i in c && i < |types| :: types[i]
  }

  /** Every entry of a plan names one of n nodes. */
  predicate InRange(plan: seq<seq<nat>>, n: nat) {
    forall m, j :: 0 <= m < |plan| && 0 <= j < |plan[m]| ==> plan[m][j] < n
  }

  /** The plan's indices replaced by the nodes they name. */
  function Lift<N>(plan: seq<seq<nat>>, ns: seq<N>): seq<seq<N>>
    requires InRange(plan, |ns|)
  {
    seq(|plan|, m requires 0 <= m < |plan| =>
      seq(|plan[m]|, j requires 0 <= j < |plan[m]| => ns[plan[m][j]]))
  }

  /** Lifting a plan over distinct nodes keeps every node in one place. */
  lemma LiftDistinct<N>(plan: seq<seq<nat>>, ns: seq<N>)
    requires InRange(plan, |ns|) && Distinct(plan) && NoDup(ns)
    ensures Distinct(Lift(plan, ns))
  {
    var b := Lift(plan, ns);
    forall m1, i1, m2, i2 |
      && 0 <= m1 < |b| && 0 <= i1 < |b[m1]| && 0 <= m2 < |b| && 0 <= i2 < |b[m2]|
      && b[m1][i1] == b[m2][i2]
      ensures m1 == m2 && i1 == i2
    {
      assert ns[plan[m1][i1]] == ns[plan[m2][i2]];
    }
  }

  /** Lifting a complete plan covers every node, and the nodes the lifted
      batches flag critical are exactly the registered nodes flagged critical. */
  lemma LiftFlagged<N, T>(preds: seq<seq<nat>>, plan: seq<seq<nat>>, ns: seq<N>, views: map<N, NodeView<T>>)
    requires IsPlan(preds, plan) && |preds| == |ns| && InRange(plan, |ns|)
    requires forall i :: 0 <= i < |ns| ==> ns[i] in views
    ensures Covers(Lift(plan, ns), views)
    ensures FlaggedUpTo(Lift(plan, ns), views, |plan|) == set i | 0 <= i < |ns| && views[ns[i]].critical :: ns[i]
  {
    var b := Lift(plan, ns);
    var all := set i | 0 <= i < |ns| && views[ns[i]].critical :: ns[i];
    forall x | x in all
      ensures x in FlaggedUpTo(b, views, |plan|)
    {
      var i :| 0 <= i < |ns| && views[ns[i]].critical && x == ns[i];
      PlanPlacesEveryNode(preds, plan, i);
      var m, j :| 0 <= m < |plan| && 0 <= j < |plan[m]| && plan[m][j] == i;
      assert b[m][j] == x;
    }
    forall x | x in FlaggedUpTo(b, views, |plan|)
      ensures x in all
    {
      var m, j :| 0 <= m < |plan| && 0 <= j < |plan[m]| && views[b[m][j]].critical && x == b[m][j];
      assert x == ns[plan[m][j]];
    }
  }

  /** In a run over a lifted plan, by the time batch m starts every node a
      member of batch m depends on has been initialised: its Initialized
      event is in the trace ahead of all of batch m's events. */
  lemma DependencyRunsFirst<N, T>(preds: seq<seq<nat>>, plan: seq<seq<nat>>, ns: seq<N>, views: map<N, NodeView<T>>,
                                  critical0: set<N>, cancel: seq<bool>, m: nat, j: nat, p: nat)
    requires IsPlan(preds, plan) && |preds| == |ns| && InRange(plan, |ns|)
    requires Covers(Lift(plan, ns), views)
    requires m < |plan| && j < |plan[m]| && p in preds[plan[m][j]]
    requires RunUpTo(Lift(plan, ns), views, critical0, cancel, m).status == Ok
    ensures p < |ns| && ns[p] in views
    ensures var b := Lift(plan, ns);
      var before := RunUpTo(b, views, critical0, cancel, m).events;
      && Initialized(views[ns[p]].systemType) in before
      && (assert InViews(b[m], views); before + BatchEvents(b[m], views) <= Run(b, views, critical0, cancel).events)
  {
    var b := Lift(plan, ns);
    PlanOrdersDependencies(preds, plan, m, j, p);
    var m', j' :| 0 <= m' < m && 0 <= j' < |plan[m']| && plan[m'][j'] == p;
    assert b[m'][j'] == ns[p];
    EarlierBatchesInitialized(b, views, critical0, cancel, m);
    BatchFollowsEarlierBatches(b, views, critical0, cancel, m);
  }

  /** The systems registered so far, one node each, and the nodes an earlier
      build found critical. */
  class Builder<T(==)> {
    var nodes: seq<Node<T>>
    var criticalSystems: set<Node<T>>

    /** The registered system types, in registration order. */
    function Types(): seq<T>
      reads this`nodes
    {
      var ns := nodes;
      seq(|ns|, i requires 0 <= i < |ns| => ns[i].systemType)
    }

    /** The dependency types each registered node declares. */
    ghost function Declared(): seq<seq<T>>
      reads this`nodes, nodes
    {
      var ns := nodes;
      seq(|ns|, i requires 0 <= i < |ns| reads ns => ns[i].dependencies)
    }

    /** The first k registered nodes that are flagged critical. */
    function CriticalBefore(k: nat): set<Node<T>>
      reads this`nodes, nodes
    {
      var ns := nodes;
      set i | 0 <= i < k && i < |ns| && ns[i].isCritical :: ns[i]
    }

    /** No two registered systems share a type. */
    ghost predicate Valid()
      reads this`nodes
    {
      NoDup(Types())
    }

    lemma DistinctNodes()
      requires Valid()
      ensures NoDup(nodes)
    {
      forall i, j | 0 <= i < j < |nodes|
        ensures nodes[i] != nodes[j]
      {
        assert Types()[i] != Types()[j];
      }
    }

    constructor ()
      ensures Valid()
      ensures nodes == [] && criticalSystems == {}
    {
      nodes := [];
      criticalSystems := {};
    }

    /** Registers a system of type `system` that declares the dependency
        types `declared`. A second system of a registered type is refused.
        Otherwise a fresh node joins the registrations and takes the declared
        dependencies; if one of them is not an initializable system the
        node stays registered and the error is reported instead of it. */
    method AddSystem(system: T, declared: seq<T>, initializable: T -> bool) returns (r: Result<Node<T>, Error<T>>)
      requires Valid()
      modifies this`nodes
      ensures Valid()
      ensures Register(old(Types()), system).Failure? ==> r == Failure(Duplicate(system)) && nodes == old(nodes)
      ensures Register(old(Types()), system).Success? ==>
        && Types() == Register(old(Types()), system).value
        && |nodes| == |old(nodes)| + 1 && nodes[..|old(nodes)|] == old(nodes)
        && fresh(nodes[|old(nodes)|])
        && !nodes[|old(nodes)|].isCritical && !nodes[|old(nodes)|].isProcessed
        && nodes[|old(nodes)|].onStarted == [] && nodes[|old(nodes)|].onCompleted == []
        && nodes[|old(nodes)|].Valid()
        && (nodes[|old(nodes)|].dependencies, if r.Success? then Pass else Fail(r.error))
             == Declare([], declared, initializable)
        && (r.Success? ==> r.value == nodes[|old(nodes)|])
    {
      if system in Types() {
        return Failure(Duplicate(system));
      }
      var node := Enrol(system);
      var outcome := node.AddDependencies(declared, initializable);
      r := if outcome.Pass? then Success(node) else Failure(outcome.error);
    }

    /** Appends a fresh node for a system of a type not registered yet. */
    method Enrol(system: T) returns (node: Node<T>)
      requires Valid() && system !in Types()
      modifies this`nodes
      ensures fresh(node) && nodes == old(nodes) + [node]
      ensures Valid() && Types() == Register(old(Types()), system).value
      ensures node.systemType == system && node.dependencies == [] && !node.isCritical && !node.isProcessed
      ensures node.onStarted == [] && node.onCompleted == [] && node.Valid()
    {
      node := new Node(system);
      nodes := nodes + [node];
      assert Types() == old(Types()) + [system];
    }

    /** Locks every registered node and plans the batches. The critical set
        is rebuilt from scratch while the dependencies are resolved, so an
        unresolved dependency leaves in it only the critical nodes registered
        before the failing one. On success the context gets the batches, one
        per dependency level, and the nodes flagged critical. */
    method Build(assignable: (T, T) -> bool) returns (r: Result<Context<T>, Error<T>>)
      requires Valid()
      modifies this`criticalSystems, nodes
      ensures Valid() && Declared() == old(Declared())
      ensures forall i :: 0 <= i < |nodes| ==> nodes[i].View() == old(nodes[i].View()).(processed := true)
      ensures (r.Failure? && r.error.Unresolved?) <==> !ResolvesAll(Types(), Declared(), assignable)
      ensures r.Failure? && r.error.Unresolved? ==>
        exists i, k :: 0 <= i < |nodes| && 0 <= k < |Declared()[i]|
          && r.error == Unresolved(Types()[i], Declared()[i][k])
          && !Resolves(Types(), Declared()[i][k], assignable)
          && ResolvedBefore(Types(), Declared(), assignable, i, k)
          && criticalSystems == CriticalBefore(i)
      ensures r.Failure? && !r.error.Unresolved? ==>
        && r.error.Cyclic?
        && ResolvesAll(Types(), Declared(), assignable)
        && criticalSystems == CriticalBefore(|nodes|)
        && exists c, k :: && Layer(Preds(Types(), Declared(), assignable), k) == {}
                          && c == Stuck(Preds(Types(), Declared(), assignable), k)
                          && SelfBlocking(Preds(Types(), Declared(), assignable), c)
                          && r.error.systems == TypesOf(Types(), c)
      ensures r.Success? ==>
        && ResolvesAll(Types(), Declared(), assignable)
        && fresh(r.value) && r.value.Valid()
        && criticalSystems == CriticalBefore(|nodes|)
        && r.value.criticalSystems == criticalSystems
        && (exists plan :: IsPlan(Preds(Types(), Declared(), assignable), plan)
                           && InRange(plan, |nodes|) && r.value.batches == Lift(plan, nodes))
        && Covers(r.value.batches, r.value.Views())
        && r.value.criticalSystems == FlaggedUpTo(r.value.batches, r.value.Views(), |r.value.batches|)
    {
      var types, deps := Lock();
      r := Settle(types, deps, assignable);
    }

    /** Plans the batches for the registered types and declared
        dependencies, and rebuilds the critical set as the resolution goes. */
    method Settle(types: seq<T>, deps: seq<seq<T>>, assignable: (T, T) -> bool) returns (r: Result<Context<T>, Error<T>>)
      requires Valid() && |types| == |nodes| && |deps| == |types|
      modifies this`criticalSystems
      ensures (r.Failure? && r.error.Unresolved?) <==> !ResolvesAll(types, deps, assignable)
      ensures r.Failure? && r.error.Unresolved? ==>
        exists i, k :: 0 <= i < |nodes| && 0 <= k < |deps[i]|
          && r.error == Unresolved(types[i], deps[i][k])
          && !Resolves(types, deps[i][k], assignable)
          && ResolvedBefore(types, deps, assignable, i, k)
          && criticalSystems == CriticalBefore(i)
      ensures r.Failure? && !r.error.Unresolved? ==>
        && r.error.Cyclic?
        && ResolvesAll(types, deps, assignable)
        && criticalSystems == CriticalBefore(|nodes|)
        && exists c, k :: && Layer(Preds(types, deps, assignable), k) == {}
                          && c == Stuck(Preds(types, deps, assignable), k)
                          && SelfBlocking(Preds(types, deps, assignable), c)
                          && r.error.systems == TypesOf(types, c)
      ensures r.Success? ==>
        && ResolvesAll(types, deps, assignable)
        && fresh(r.value) && r.value.Valid()
        && criticalSystems == CriticalBefore(|nodes|)
        && r.value.criticalSystems == criticalSystems
        && (exists plan :: IsPlan(Preds(types, deps, assignable), plan)
                           && InRange(plan, |nodes|) && r.value.batches == Lift(plan, nodes))
        && Covers(r.value.batches, r.value.Views())
        && r.value.criticalSystems == FlaggedUpTo(r.value.batches, r.value.Views(), |r.value.batches|)
    {
      var planned := BuildBatches(types, deps, assignable);
      match planned {
        case Failure(UnresolvedAt(at, d)) =>
          criticalSystems := CriticalBefore(at);
          r := Failure(Unresolved(types[at], d));
        case Failure(CyclicAt(c)) =>
          criticalSystems := CriticalBefore(|nodes|);
          r := Failure(Cyclic(TypesOf(types, c)));
        case Success(plan) =>
          ghost var preds := Preds(types, deps, assignable);
          criticalSystems := CriticalBefore(|nodes|);
          var context := Assemble(plan, preds);
          r := Success(context);
      }
    }

    /** Marks every registered node processed and reads off the registered
        types and the declared dependencies. */
    method Lock() returns (types: seq<T>, deps: seq<seq<T>>)
      requires Valid()
      modifies nodes
      ensures types == Types() && deps == Declared() && Declared() == old(Declared())
      ensures forall i :: 0 <= i < |nodes| ==> nodes[i].View() == old(nodes[i].View()).(processed := true)
    {
      DistinctNodes();
      types := [];
      deps := [];
      var i := 0;
      while i < |nodes|
        invariant 0 <= i <= |nodes|
        invariant |types| == i && |deps| == i
        invariant forall j :: 0 <= j < i ==> types[j] == nodes[j].systemType && deps[j] == nodes[j].dependencies
        invariant forall j :: 0 <= j < |nodes| ==>
          nodes[j].View() == if j < i then old(nodes[j].View()).(processed := true) else old(nodes[j].View())
      {
        types := types + [nodes[i].systemType];
        deps := deps + [nodes[i].dependencies];
        nodes[i].SetProcessed();
        i := i + 1;
      }
    }

    /** The context for a complete plan: its batches name the registered
        nodes and its critical set is the builder's. */
    method Assemble(plan: seq<seq<nat>>, ghost preds: seq<seq<nat>>) returns (context: Context<T>)
      requires Valid() && IsPlan(preds, plan) && |preds| == |nodes|
      requires criticalSystems == CriticalBefore(|nodes|)
      ensures fresh(context) && context.Valid()
      ensures InRange(plan, |nodes|) && context.batches == Lift(plan, nodes)
      ensures context.criticalSystems == criticalSystems
      ensures Covers(context.batches, context.Views())
      ensures context.criticalSystems == FlaggedUpTo(context.batches, context.Views(), |context.batches|)
    {
      PlanInRange(preds, plan);
      PlanIsDistinct(preds, plan);
      DistinctNodes();
      LiftDistinct(plan, nodes);
      context := new Context(Lift(plan, nodes), criticalSystems);
      ContextFlagged(context, preds, plan);
    }

    /** The context's critical set is what its batches flag critical. */
    lemma ContextFlagged(context: Context<T>, preds: seq<seq<nat>>, plan: seq<seq<nat>>)
      requires IsPlan(preds, plan) && |preds| == |nodes| && InRange(plan, |nodes|)
      requires context.batches == Lift(plan, nodes)
      requires context.criticalSystems == CriticalBefore(|nodes|)
      ensures Covers(context.batches, context.Views())
      ensures context.criticalSystems == FlaggedUpTo(context.batches, context.Views(), |context.batches|)
    {
      var views := context.Views();
      forall i | 0 <= i < |nodes|
        ensures nodes[i] in views && views[nodes[i]].critical == nodes[i].isCritical
      {
        PlanPlacesEveryNode(preds, plan, i);
        var m, j :| 0 <= m < |plan| && 0 <= j < |plan[m]| && plan[m][j] == i;
        assert context.batches[m][j] == nodes[i];
        assert nodes[i] in context.Nodes();
      }
      LiftFlagged(preds, plan, nodes, views);
    }
  }
}
