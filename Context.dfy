/** The startup context: the batches a build produced and the set of
    critical nodes still to initialise. A run fires the batches in order and
    strikes critical nodes out after each batch. */
module ContextModel {
  import opened Common
  import opened NodeModel
  import opened RunModel

  class Context<T(==)> {
    const batches: seq<seq<Node<T>>>
    var criticalSystems: set<Node<T>>

    /** Every node of every batch. */
    ghost function Nodes(): set<Node<T>> {
      set m, j | 0 <= m < |batches| && 0 <= j < |batches[m]| :: batches[m][j]
    }

    /** The state of every node the run depends on. */
    ghost function Views(): map<Node<T>, NodeView<T>>
      reads Nodes()
    {
      map n | n in Nodes() :: n.View()
    }

    /** A node occurs at most once across the batches. */
    ghost predicate Valid() {
      Distinct(batches)
    }

    lemma ViewsCover()
      ensures Covers(batches, Views())
    {
      forall m, j | 0 <= m < |batches| && 0 <= j < |batches[m]|
        ensures batches[m][j] in Views()
      {
        assert batches[m][j] in Nodes();
      }
    }

    /** The context keeps the batches and its own copy of the critical set. */
    constructor (batches: seq<seq<Node<T>>>, criticalSystems: set<Node<T>>)
      requires Distinct(batches)
      ensures Valid()
      ensures this.batches == batches && this.criticalSystems == criticalSystems
    {
      this.batches := batches;
      this.criticalSystems := criticalSystems;
    }

    /** Strikes one node out of the critical set: nothing for a node that is
        not critical, an error for a critical node that is not in the set, and
        the "critical systems initialized" event (`Some(true)`) when the set
        has just become empty. */
    method RemoveCriticalSystem(node: Node<T>) returns (r: Option<bool>)
      modifies this`criticalSystems
      ensures var rm := RemoveCritical(old(criticalSystems), node.isCritical, node);
        && (rm.None? ==> r.None? && criticalSystems == old(criticalSystems))
        && (rm.Some? ==> r == Some(rm.value.ready) && criticalSystems == rm.value.critical)
    {
      if !node.isCritical {
        return Some(false);
      }
      if node !in criticalSystems {
        return None;
      }
      criticalSystems := criticalSystems - {node};
      if criticalSystems != {} {
        return Some(false);
      }
      return Some(true);
    }

    /** Runs every node of a batch once, in batch order; the nodes release
        their callbacks and no other object changes. */
    method FireBatch(batch: seq<Node<T>>, ghost views: map<Node<T>, NodeView<T>>) returns (events: seq<Event<T>>)
      requires NoDup(batch) && InViews(batch, views)
      requires forall j :: 0 <= j < |batch| ==> batch[j].View() == views[batch[j]]
      modifies Elems(batch)
      ensures events == BatchEvents(batch, views)
      ensures forall j :: 0 <= j < |batch| ==> batch[j].View() == Cleared(views[batch[j]])
    {
      events := [];
      var i := 0;
      while i < |batch|
        invariant 0 <= i <= |batch|
        invariant InViews(batch[..i], views) && events == BatchEvents(batch[..i], views)
        invariant forall j :: 0 <= j < |batch| ==> batch[j].View() == if j < i then Cleared(views[batch[j]]) else views[batch[j]]
      {
        events := FireNode(batch, i, views, events);
        i := i + 1;
      }
      assert batch[..|batch|] == batch;
    }

    /** Node i of a batch fires and its events join those of the nodes
        before it. */
    method FireNode(batch: seq<Node<T>>, i: nat, ghost views: map<Node<T>, NodeView<T>>, events: seq<Event<T>>)
      returns (events': seq<Event<T>>)
      requires i < |batch| && NoDup(batch) && InViews(batch, views)
      requires InViews(batch[..i], views) && events == BatchEvents(batch[..i], views)
      requires forall j :: 0 <= j < |batch| ==> batch[j].View() == if j < i then Cleared(views[batch[j]]) else views[batch[j]]
      modifies batch[i]
      ensures InViews(batch[..i + 1], views) && events' == BatchEvents(batch[..i + 1], views)
      ensures forall j :: 0 <= j < |batch| ==> batch[j].View() == if j < i + 1 then Cleared(views[batch[j]]) else views[batch[j]]
    {
      BatchEventsSnoc(batch, i, views);
      var fired := batch[i].InitializeAsync();
      events' := events + fired;
    }

    /** The removal pass after a batch, stopping at the first node that
        cannot be struck out; a "critical systems initialized" event is
        appended when the set empties. */
    method StrikeBatch(batch: seq<Node<T>>, ghost views: map<Node<T>, NodeView<T>>, events: seq<Event<T>>, ghost fired: nat)
      returns (events': seq<Event<T>>, status: Status)
      requires InViews(batch, views)
      requires forall j :: 0 <= j < |batch| ==> batch[j].isCritical == views[batch[j]].critical
      modifies this`criticalSystems
      ensures RunState(events', criticalSystems, status, fired) == Sweep(RunState(events, old(criticalSystems), Ok, fired), batch, views)
    {
      ghost var s0 := RunState(events, criticalSystems, Ok, fired);
      events' := events;
      status := Ok;
      var i := 0;
      while i < |batch| && status == Ok
        invariant 0 <= i <= |batch|
        invariant InViews(batch[..i], views)
        invariant RunState(events', criticalSystems, status, fired) == Sweep(s0, batch[..i], views)
      {
        assert batch[..i + 1][..i] == batch[..i];
        assert InViews(batch[..i + 1], views);
        var r := RemoveCriticalSystem(batch[i]);
        match r {
          case None => status := Faulted;
          case Some(ready) => if ready { events' := events' + [CriticalReady]; }
        }
        i := i + 1;
      }
      if status != Ok {
        SweepStops(s0, batch, i, views);
      } else {
        assert batch[..i] == batch;
      }
    }

    /** A run: batches fire in order; after each batch, cancellation is
        checked and, unless requested, the batch's critical nodes are struck
        out. The trace, the outcome and the remaining critical set are those
        of `Run` over the nodes' state when the run begins; the nodes of the
        batches that fired have released their callbacks, and nothing else
        about any node changes. */
    method InitializationAsync(cancel: seq<bool>) returns (events: seq<Event<T>>, status: Status)
      requires Valid()
      modifies this`criticalSystems, Nodes()
      ensures Covers(batches, old(Views()))
      ensures var r := Run(batches, old(Views()), old(criticalSystems), cancel);
        events == r.events && status == r.status && criticalSystems == r.critical
      ensures var r := Run(batches, old(Views()), old(criticalSystems), cancel);
        forall m, j :: 0 <= m < |batches| && 0 <= j < |batches[m]| ==>
          batches[m][j].View() == if m < r.fired then Cleared(old(batches[m][j].View())) else old(batches[m][j].View())
    {
      ghost var views := Views();
      ghost var critical0 := criticalSystems;
      ViewsCover();
      events := [];
      status := Ok;
      var k := 0;
      while k < |batches| && status == Ok
        invariant 0 <= k <= |batches|
        invariant RunUpTo(batches, views, critical0, cancel, k) == RunState(events, criticalSystems, status, k)
        invariant forall m, j :: 0 <= m < |batches| && 0 <= j < |batches[m]| ==>
          batches[m][j].View() == if m < k then Cleared(views[batches[m][j]]) else views[batches[m][j]]
      {
        InNodes(k);
        events, status := Advance(k, views, critical0, cancel, events);
        k := k + 1;
      }
      if status != Ok {
        StopIsFinal(batches, views, critical0, cancel, k, |batches|);
      }
    }

    /** Iteration k of the run, stated against the run's specification: the
        state after it is `RunUpTo` one batch further. */
    method Advance(k: nat, ghost views: map<Node<T>, NodeView<T>>, ghost critical0: set<Node<T>>, cancel: seq<bool>,
                   events: seq<Event<T>>)
      returns (events': seq<Event<T>>, status: Status)
      requires Valid() && k < |batches| && Covers(batches, views)
      requires RunUpTo(batches, views, critical0, cancel, k) == RunState(events, criticalSystems, Ok, k)
      requires forall m, j :: 0 <= m < |batches| && 0 <= j < |batches[m]| ==>
        batches[m][j].View() == if m < k then Cleared(views[batches[m][j]]) else views[batches[m][j]]
      modifies this`criticalSystems, Elems(batches[k])
      ensures RunUpTo(batches, views, critical0, cancel, k + 1) == RunState(events', criticalSystems, status, k + 1)
      ensures forall m, j :: 0 <= m < |batches| && 0 <= j < |batches[m]| ==>
        batches[m][j].View() == if m < k + 1 then Cleared(views[batches[m][j]]) else views[batches[m][j]]
    {
      Separate(k);
      ghost var critical := criticalSystems;
      RunStep(batches, views, critical0, cancel, k, events, critical);
      assert InViews(batches[k], views);
      ghost var s1 := RunState(events + BatchEvents(batches[k], views), critical, Ok, k + 1);
      events', status := RunBatch(k, views, cancel, events);
      assert RunState(events', criticalSystems, status, k + 1) == if CancelledAfter(cancel, k) then s1.(status := Cancelled) else Sweep(s1, batches[k], views);
    }

    /** One iteration of the run: batch k fires, then cancellation is checked,
        then the removal pass runs. */
    method RunBatch(k: nat, ghost views: map<Node<T>, NodeView<T>>, cancel: seq<bool>, events: seq<Event<T>>)
      returns (events': seq<Event<T>>, status: Status)
      requires k < |batches| && Covers(batches, views) && NoDup(batches[k])
      requires forall m, j :: 0 <= m < |batches| && 0 <= j < |batches[m]| && m != k ==> batches[m][j] !in Elems(batches[k])
      requires forall m, j :: 0 <= m < |batches| && 0 <= j < |batches[m]| ==>
        batches[m][j].View() == if m < k then Cleared(views[batches[m][j]]) else views[batches[m][j]]
      modifies this`criticalSystems, Elems(batches[k])
      ensures assert InViews(batches[k], views);
        var s1 := RunState(events + BatchEvents(batches[k], views), old(criticalSystems), Ok, k + 1);
        RunState(events', criticalSystems, status, k + 1) == if CancelledAfter(cancel, k) then s1.(status := Cancelled) else Sweep(s1, batches[k], views)
      ensures forall m, j :: 0 <= m < |batches| && 0 <= j < |batches[m]| ==>
        batches[m][j].View() == if m < k + 1 then Cleared(views[batches[m][j]]) else views[batches[m][j]]
    {
      assert InViews(batches[k], views);
      var fired := FireBatch(batches[k], views);
      forall m, j | 0 <= m < |batches| && 0 <= j < |batches[m]| && m != k
        ensures batches[m][j].View() == old(batches[m][j].View())
      {
        assert batches[m][j] !in Elems(batches[k]);
      }
      events' := events + fired;
      if k < |cancel| && cancel[k] {
        status := Cancelled;
      } else {
        events', status := StrikeBatch(batches[k], views, events', k + 1);
      }
    }

    lemma InNodes(k: nat)
      requires k < |batches|
      ensures Elems(batches[k]) <= Nodes()
    {
      forall n | n in Elems(batches[k])
        ensures n in Nodes()
      {
        var j :| 0 <= j < |batches[k]| && batches[k][j] == n;
      }
    }

    /** The nodes of batch k belong to no other batch. */
    lemma Separate(k: nat)
      requires Valid() && k < |batches|
      ensures NoDup(batches[k])
      ensures forall m, j :: 0 <= m < |batches| && 0 <= j < |batches[m]| && m != k ==> batches[m][j] !in Elems(batches[k])
    {
      forall m, j | 0 <= m < |batches| && 0 <= j < |batches[m]| && m != k
        ensures batches[m][j] !in Elems(batches[k])
      {
        assert forall i :: 0 <= i < |batches[k]| ==> batches[k][i] != batches[m][j];
      }
    }
  }
}
