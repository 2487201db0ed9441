/** One registered system: its type, its declared dependency types, its
    criticality, the one-way "processed" lock, and the two callback lists
    that fire once around the system's own initialisation. */
module NodeModel {
  import opened Common

  /** Insertion into the dependency set: a type already present changes nothing. */
  function Insert<T(==)>(deps: seq<T>, d: T): (r: seq<T>)
    requires NoDup(deps)
    ensures NoDup(r) && Elems(r) == Elems(deps) + {d}
    ensures |deps| <= |r| && r[..|deps|] == deps
  {
    if d in deps then deps else deps + [d]
  }

  /** Index of the first type that is not an initializable system, or |ds|. */
  function FirstRejected<T>(ds: seq<T>, initializable: T -> bool): (k: nat)
    ensures k <= |ds|
    ensures forall j :: 0 <= j < k ==> initializable(ds[j])
    ensures k < |ds| ==> !initializable(ds[k])
  {
    if ds == [] then 0
    else if !initializable(ds[0]) then 0
    else 1 + FirstRejected(ds[1..], initializable)
  }

  /** `AddDependencies` as a value: types are inserted one at a time, and the
      first type that is not an initializable system stops the call. Earlier
      entries keep their place. */
  function Declare<T(==)>(deps: seq<T>, ds: seq<T>, initializable: T -> bool): (r: (seq<T>, Outcome<Error<T>>))
    requires NoDup(deps)
    ensures NoDup(r.0) && |deps| <= |r.0| && r.0[..|deps|] == deps
    decreases |ds|
  {
    if ds == [] then (deps, Pass)
    else if !initializable(ds[0]) then (deps, Fail(NotInitializable(ds[0])))
    else Declare(Insert(deps, ds[0]), ds[1..], initializable)
  }

  /** The call fails exactly at the first type that is not an initializable
      system. */
  lemma {:induction false} DeclareOutcome<T>(deps: seq<T>, ds: seq<T>, initializable: T -> bool)
    requires NoDup(deps)
    ensures var k := FirstRejected(ds, initializable);
      Declare(deps, ds, initializable).1 == if k < |ds| then Fail(NotInitializable(ds[k])) else Pass
    decreases |ds|
  {
    if ds != [] && initializable(ds[0]) {
      DeclareOutcome(Insert(deps, ds[0]), ds[1..], initializable);
    }
  }

  /** Every type before the first rejected one has been inserted, and no
      other. */
  lemma {:induction false} DeclareInserts<T>(deps: seq<T>, ds: seq<T>, initializable: T -> bool)
    requires NoDup(deps)
    ensures Elems(Declare(deps, ds, initializable).0) == Elems(deps) + Elems(ds[..FirstRejected(ds, initializable)])
    decreases |ds|
  {
    if ds == [] || !initializable(ds[0]) {
      assert Elems(ds[..0]) == {};
    } else {
      var d := ds[0];
      var k := FirstRejected(ds[1..], initializable);
      var ins := Insert(deps, d);
      assert FirstRejected(ds, initializable) == k + 1;
      assert Declare(deps, ds, initializable) == Declare(ins, ds[1..], initializable);
      DeclareInserts(ins, ds[1..], initializable);
      PrefixOfTail(ds, k);
      ElemsConcat([d], ds[1..][..k]);
      assert Elems([d]) == {d};
      calc {
        Elems(Declare(deps, ds, initializable).0);
        Elems(ins) + Elems(ds[1..][..k]);
        Elems(deps) + {d} + Elems(ds[1..][..k]);
        Elems(deps) + Elems(ds[..k + 1]);
      }
    }
  }

  /** Declaring the same types again changes nothing: the dependencies behave as a set. */
  lemma {:induction false} DeclareIdempotent<T>(deps: seq<T>, ds: seq<T>, initializable: T -> bool)
    requires NoDup(deps)
    requires forall k :: 0 <= k < |ds| ==> ds[k] in deps
    ensures Declare(deps, ds, initializable).0 == deps
  {
    if ds != [] && initializable(ds[0]) {
      assert Insert(deps, ds[0]) == deps;
      DeclareIdempotent(deps, ds[1..], initializable);
    }
  }

  /** The dependency set after a remove-by-type: every declared type that is
      assignable to one of the removed types goes, whether it is that exact
      type or derives from it. */
  function WithoutRemoved<T(==,!new)>(deps: seq<T>, removed: seq<T>, assignable: (T, T) -> bool): (r: seq<T>)
    ensures forall d :: d in r <==> d in deps && forall q :: q in removed ==> !assignable(q, d)
    ensures |r| <= |deps|
  {
    if deps == [] then []
    else
      var rest := WithoutRemoved(deps[1..], removed, assignable);
      assert deps == [deps[0]] + deps[1..];
      if exists q :: q in removed && assignable(q, deps[0]) then rest else [deps[0]] + rest
  }

  /** Removals accumulate: two calls remove what one call with both lists removes. */
  lemma {:induction false} RemovalsAccumulate<T(!new)>(deps: seq<T>, a: seq<T>, b: seq<T>, assignable: (T, T) -> bool)
    ensures WithoutRemoved(WithoutRemoved(deps, a, assignable), b, assignable) == WithoutRemoved(deps, a + b, assignable)
  {
    if deps != [] {
      RemovalsAccumulate(deps[1..], a, b, assignable);
      var d := deps[0];
      var ra := WithoutRemoved(deps, a, assignable);
      if exists q :: q in a && assignable(q, d) {
        var q :| q in a && assignable(q, d);
        assert q in a + b;
      } else if exists q :: q in b && assignable(q, d) {
        var q :| q in b && assignable(q, d);
        assert q in a + b;
        assert ra[0] == d && ra[1..] == WithoutRemoved(deps[1..], a, assignable);
      } else {
        assert ra[0] == d && ra[1..] == WithoutRemoved(deps[1..], a, assignable);
        assert forall q :: q in a + b ==> q in a || q in b;
      }
    }
  }

  /** Removing the same types twice is the same as removing them once. */
  lemma RemovalIdempotent<T(!new)>(deps: seq<T>, a: seq<T>, assignable: (T, T) -> bool)
    ensures WithoutRemoved(WithoutRemoved(deps, a, assignable), a, assignable) == WithoutRemoved(deps, a, assignable)
  {
    RemovalsAccumulate(deps, a, a, assignable);
    SameRemovals(deps, a + a, a, assignable);
  }

  lemma {:induction false} SameRemovals<T(!new)>(deps: seq<T>, a: seq<T>, b: seq<T>, assignable: (T, T) -> bool)
    requires forall q :: q in a <==> q in b
    ensures WithoutRemoved(deps, a, assignable) == WithoutRemoved(deps, b, assignable)
  {
    if deps != [] {
      SameRemovals(deps[1..], a, b, assignable);
    }
  }

  /** The per-node part of the trace: every start callback in registration
      order with the node's type, then the system's own initialisation, then
      every complete callback in registration order. */
  function NodeEvents<T>(t: T, starts: seq<CallbackId>, completes: seq<CallbackId>): (r: seq<Event<T>>)
    ensures |r| == |starts| + 1 + |completes|
    ensures forall k :: 0 <= k < |starts| ==> r[k] == Started(starts[k], t)
    ensures r[|starts|] == Initialized(t)
    ensures forall k :: 0 <= k < |completes| ==> r[|starts| + 1 + k] == Completed(completes[k], t)
  {
    seq(|starts|, k requires 0 <= k < |starts| => Started(starts[k], t))
      + [Initialized(t)]
      + seq(|completes|, k requires 0 <= k < |completes| => Completed(completes[k], t))
  }

  /** Every event a node fires names that node's own type. */
  lemma NodeEventsAbout<T>(t: T, starts: seq<CallbackId>, completes: seq<CallbackId>, e: Event<T>)
    requires e in NodeEvents(t, starts, completes)
    ensures About(e, t)
  {
    var r := NodeEvents(t, starts, completes);
    var p :| 0 <= p < |r| && r[p] == e;
    if p > |starts| {
      assert r[|starts| + 1 + (p - |starts| - 1)] == e;
    }
  }

  /** The state of a node the run depends on. */
  datatype NodeView<T> = NodeView(systemType: T, critical: bool, dependencies: seq<T>, processed: bool,
                                  onStarted: seq<CallbackId>, onCompleted: seq<CallbackId>)

  /** A node after it has run: both callback lists are released. */
  function Cleared<T>(v: NodeView<T>): NodeView<T> {
    v.(onStarted := [], onCompleted := [])
  }

  class Node<T(==)> {
    const systemType: T
    var dependencies: seq<T>      // a set kept in insertion order
    var isCritical: bool
    var isProcessed: bool         // one-way lock: set by SetProcessed, never reset
    var onStarted: seq<CallbackId>
    var onCompleted: seq<CallbackId>

    ghost predicate Valid()
      reads this
    {
      NoDup(dependencies)
    }

    ghost function View(): NodeView<T>
      reads this
    {
      NodeView(systemType, isCritical, dependencies, isProcessed, onStarted, onCompleted)
    }

    /** A fresh node records its system's type, is not critical, has no
        dependencies and no callbacks, and is not processed. */
    constructor (systemType: T)
      ensures Valid()
      ensures this.systemType == systemType
      ensures dependencies == [] && !isCritical && !isProcessed
      ensures onStarted == [] && onCompleted == []
    {
      this.systemType := systemType;
      dependencies := [];
      isCritical := false;
      isProcessed := false;
      onStarted := [];
      onCompleted := [];
    }

    /** Fails once processed, leaving the set alone; otherwise inserts the
        types one at a time, failing at the first that is not an
        initializable system with the earlier ones inserted. */
    method AddDependencies(ds: seq<T>, initializable: T -> bool) returns (r: Outcome<Error<T>>)
      requires Valid()
      modifies this`dependencies
      ensures Valid()
      ensures isProcessed ==> r == Fail(Processed) && dependencies == old(dependencies)
      ensures !isProcessed ==> (dependencies, r) == Declare(old(dependencies), ds, initializable)
    {
      if isProcessed {
        return Fail(Processed);
      }
      var k := 0;
      while k < |ds|
        invariant 0 <= k <= |ds|
        invariant NoDup(dependencies)
        invariant Declare(old(dependencies), ds, initializable) == Declare(dependencies, ds[k..], initializable)
      {
        assert ds[k..] == [ds[k]] + ds[k + 1..];
        if !initializable(ds[k]) {
          return Fail(NotInitializable(ds[k]));
        }
        dependencies := Insert(dependencies, ds[k]);
        k := k + 1;
      }
      return Pass;
    }

    /** The generic single-type form. */
    method AddDependency(d: T, initializable: T -> bool) returns (r: Outcome<Error<T>>)
      requires Valid()
      requires initializable(d)  // the generic constraint: `d` is an initializable system type
      modifies this`dependencies
      ensures Valid()
      ensures isProcessed ==> r == Fail(Processed) && dependencies == old(dependencies)
      ensures !isProcessed ==> r == Pass && dependencies == Insert(old(dependencies), d)
    {
      r := AddDependencies([d], initializable);
    }

    /** Fails once processed; otherwise marks the node critical. */
    method SetCritical() returns (r: Outcome<Error<T>>)
      modifies this`isCritical
      ensures r == if isProcessed then Fail(Processed) else Pass
      ensures isCritical == (old(isCritical) || !isProcessed)
    {
      if isProcessed {
        return Fail(Processed);
      }
      isCritical := true;
      return Pass;
    }

    /** Start callbacks accumulate whatever the lock says. */
    method OnStartInitialize(callback: CallbackId)
      modifies this`onStarted
      ensures onStarted == old(onStarted) + [callback]
    {
      onStarted := onStarted + [callback];
    }

    /** Complete callbacks accumulate whatever the lock says. */
    method OnCompleteInitialize(callback: CallbackId)
      modifies this`onCompleted
      ensures onCompleted == old(onCompleted) + [callback]
    {
      onCompleted := onCompleted + [callback];
    }

    /** Fires the start callbacks, runs the system, fires the complete
        callbacks, then clears both lists, so a second call fires only the
        system's own initialisation. */
    method InitializeAsync() returns (events: seq<Event<T>>)
      modifies this`onStarted, this`onCompleted
      ensures events == NodeEvents(systemType, old(onStarted), old(onCompleted))
      ensures onStarted == [] && onCompleted == []
      ensures NodeEvents(systemType, onStarted, onCompleted) == [Initialized(systemType)]
    {
      events := NodeEvents(systemType, onStarted, onCompleted);
      onStarted := [];
      onCompleted := [];
      assert |NodeEvents(systemType, [], [])| == 1;
    }

    /** Locks the node; nothing unlocks it. */
    method SetProcessed()
      modifies this`isProcessed
      ensures isProcessed
    {
      isProcessed := true;
    }
  }
}
