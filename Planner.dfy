/** The batch planner: resolves every declared dependency type to a registered
    node, fills the in-degree and adjacency tables, and drains the ready queue
    one whole round at a time, so that round k emits exactly layer k of the
    level structure in module Levels. Nodes are registration indices. */
module Planner {
  import opened Common
  import opened Levels

  datatype PlanError<T> =
    | UnresolvedAt(node: nat, dependency: T)   // node `node` declares a type no registered node matches
    | CyclicAt(nodes: set<nat>)                // nodes whose in-degree never reached zero

  /** Index of the first registered type that `dep` is assignable from. */
  function FirstMatch<T>(types: seq<T>, dep: T, assignable: (T, T) -> bool): (r: Option<nat>)
    ensures r.Some? ==> r.value < |types| && assignable(dep, types[r.value])
    ensures r.Some? ==> forall j :: 0 <= j < r.value ==> !assignable(dep, types[j])
    ensures r.None? ==> forall j :: 0 <= j < |types| ==> !assignable(dep, types[j])
  {
    if types == [] then None
    else if assignable(dep, types[0]) then Some(0)
    else match FirstMatch(types[1..], dep, assignable)
      case None => None
      case Some(j) => Some(j + 1)
  }

  ghost predicate Resolves<T>(types: seq<T>, dep: T, assignable: (T, T) -> bool) {
    FirstMatch(types, dep, assignable).Some?
  }

  /** Every dependency entry before entry k of node i resolves. */
  ghost predicate ResolvedBefore<T>(types: seq<T>, deps: seq<seq<T>>, assignable: (T, T) -> bool, i: nat, k: nat)
    requires i <= |deps|
  {
    && (forall i', k' :: 0 <= i' < i && 0 <= k' < |deps[i']| ==> Resolves(types, deps[i'][k'], assignable))
    && (i < |deps| ==> forall k' :: 0 <= k' < k && k' < |deps[i]| ==> Resolves(types, deps[i][k'], assignable))
  }

  ghost predicate ResolvesAll<T>(types: seq<T>, deps: seq<seq<T>>, assignable: (T, T) -> bool) {
    ResolvedBefore(types, deps, assignable, |deps|, 0)
  }

  /** The resolved graph: entry k of node i points at the node its type matched first. */
  ghost function Preds<T>(types: seq<T>, deps: seq<seq<T>>, assignable: (T, T) -> bool): (preds: seq<seq<nat>>)
    requires |deps| == |types|
    requires ResolvesAll(types, deps, assignable)
    ensures WellFormed(preds)
  {
    seq(|deps|, i requires 0 <= i < |deps| =>
      seq(|deps[i]|, k requires 0 <= k < |deps[i]| => FirstMatch(types, deps[i][k], assignable).value))
  }

  /** adjacency[x] lists node j once per dependency entry of j that resolved to x. */
  ghost predicate Graph(preds: seq<seq<nat>>, adjacency: seq<seq<nat>>) {
    && |adjacency| == |preds|
    && (forall x, m :: 0 <= x < |adjacency| && 0 <= m < |adjacency[x]| ==> adjacency[x][m] < |preds|)
    && (forall x, j :: 0 <= x < |preds| && 0 <= j < |preds| ==> Count(adjacency[x], j) == Count(preds[j], x))
  }

  /** inDegree[j] is the number of j's dependency entries whose node is not drained yet. */
  ghost predicate Counted(preds: seq<seq<nat>>, inDegree: seq<int>, drained: set<nat>) {
    && |inDegree| == |preds|
    && forall j :: 0 <= j < |preds| ==> inDegree[j] == Pending(preds[j], drained)
  }

  /** The resolution pass: one adjacency edge and one unit of in-degree per
      dependency entry, stopping at the first entry that matches nothing. */
  method ResolveDependencies<T>(types: seq<T>, deps: seq<seq<T>>, assignable: (T, T) -> bool)
    returns (adjacency: seq<seq<nat>>, inDegree: seq<int>, failedAt: Option<(nat, nat)>)
    requires |deps| == |types|
    ensures failedAt.None? <==> ResolvesAll(types, deps, assignable)
    ensures failedAt.Some? ==>
      var (i, k) := failedAt.value;
      && i < |deps| && k < |deps[i]|
      && !Resolves(types, deps[i][k], assignable)
      && ResolvedBefore(types, deps, assignable, i, k)
    ensures failedAt.None? ==>
      && Graph(Preds(types, deps, assignable), adjacency)
      && |inDegree| == |deps|
      && forall j :: 0 <= j < |deps| ==> inDegree[j] == |deps[j]|
  {
    var n := |types|;
    adjacency := seq(n, _ => []);
    inDegree := seq(n, _ => 0);
    ghost var preds: seq<seq<nat>> := [];
    assert forall x :: 0 <= x < n ==> adjacency[x] == [];
    var i := 0;
    while i < n
      invariant 0 <= i <= n
      invariant |adjacency| == n && |inDegree| == n && |preds| == i
      invariant ResolvedBefore(types, deps, assignable, i, 0)
      invariant forall j :: 0 <= j < i ==> |preds[j]| == |deps[j]|
      invariant forall j, k :: 0 <= j < i && 0 <= k < |deps[j]| ==>
                  FirstMatch(types, deps[j][k], assignable) == Some(preds[j][k])
      invariant forall x, m :: 0 <= x < n && 0 <= m < |adjacency[x]| ==> adjacency[x][m] < n
      invariant forall x, j :: 0 <= x < n && 0 <= j < i ==> Count(adjacency[x], j) == Count(preds[j], x)
      invariant forall x, j :: 0 <= x < n && i <= j < n ==> Count(adjacency[x], j) == 0
      invariant forall j :: 0 <= j < n ==> inDegree[j] == if j < i then |deps[j]| else 0
    {
      var k: Option<nat>;
      ghost var cur: seq<nat>;
      adjacency, inDegree, k, cur := ResolveEntries(types, deps[i], i, assignable, adjacency, inDegree);
      if k.Some? {
        failedAt := Some((i, k.value));
        return;
      }
      preds := preds + [cur];
      i := i + 1;
    }
    failedAt := None;
    MatchesArePreds(types, deps, assignable, preds);
  }

  /** Recorded first matches, entry by entry, are the resolved graph. */
  lemma MatchesArePreds<T>(types: seq<T>, deps: seq<seq<T>>, assignable: (T, T) -> bool, preds: seq<seq<nat>>)
    requires |deps| == |types| && ResolvesAll(types, deps, assignable) && |preds| == |deps|
    requires forall j :: 0 <= j < |deps| ==> |preds[j]| == |deps[j]|
    requires forall j, k :: 0 <= j < |deps| && 0 <= k < |deps[j]| ==>
      FirstMatch(types, deps[j][k], assignable) == Some(preds[j][k])
    ensures preds == Preds(types, deps, assignable)
  {
    var resolved := Preds(types, deps, assignable);
    forall j | 0 <= j < |deps|
      ensures preds[j] == resolved[j]
    {
      assert |preds[j]| == |resolved[j]|;
      forall k | 0 <= k < |preds[j]|
        ensures preds[j][k] == resolved[j][k]
      {
      }
    }
  }

  /** The inner loop of the resolution pass, over the dependency entries `ds`
      of node i: each entry adds i to the adjacency list of the node it
      matched and one to i's in-degree. `cur` records the matched nodes. */
  method ResolveEntries<T>(types: seq<T>, ds: seq<T>, i: nat, assignable: (T, T) -> bool,
                           adjacency: seq<seq<nat>>, inDegree: seq<int>)
    returns (adjacency': seq<seq<nat>>, inDegree': seq<int>, failedAt: Option<nat>, ghost cur: seq<nat>)
    requires i < |types| && |adjacency| == |types| && |inDegree| == |types|
    requires forall x, m :: 0 <= x < |types| && 0 <= m < |adjacency[x]| ==> adjacency[x][m] < |types|
    requires forall x :: 0 <= x < |types| ==> Count(adjacency[x], i) == 0
    ensures failedAt.Some? ==>
      && failedAt.value < |ds| && !Resolves(types, ds[failedAt.value], assignable)
      && forall k :: 0 <= k < failedAt.value ==> Resolves(types, ds[k], assignable)
    ensures failedAt.None? ==>
      && |cur| == |ds|
      && (forall k :: 0 <= k < |ds| ==> FirstMatch(types, ds[k], assignable) == Some(cur[k]))
      && |adjacency'| == |types|
      && (forall x, m :: 0 <= x < |types| && 0 <= m < |adjacency'[x]| ==> adjacency'[x][m] < |types|)
      && (forall x :: 0 <= x < |types| ==> Count(adjacency'[x], i) == Count(cur, x))
      && (forall x, j :: 0 <= x < |types| && 0 <= j < |types| && j != i ==>
            Count(adjacency'[x], j) == Count(adjacency[x], j))
      && inDegree' == inDegree[i := inDegree[i] + |ds|]
  {
    var n := |types|;
    adjacency', inDegree' := adjacency, inDegree;
    cur := [];
    var k := 0;
    while k < |ds|
      invariant 0 <= k <= |ds| && |cur| == k
      invariant |adjacency'| == n
      invariant forall k' :: 0 <= k' < k ==> FirstMatch(types, ds[k'], assignable) == Some(cur[k'])
      invariant forall x, m :: 0 <= x < n && 0 <= m < |adjacency'[x]| ==> adjacency'[x][m] < n
      invariant forall x :: 0 <= x < n ==> Count(adjacency'[x], i) == Count(cur, x)
      invariant forall x, j :: 0 <= x < n && 0 <= j < n && j != i ==> Count(adjacency'[x], j) == Count(adjacency[x], j)
      invariant inDegree' == inDegree[i := inDegree[i] + k]
    {
      var depNode := FirstMatch(types, ds[k], assignable);
      if depNode.None? {
        failedAt := Some(k);
        return;
      }
      var x0 := depNode.value;
      RecordEdge(adjacency', adjacency, cur, i, x0);
      adjacency' := adjacency'[x0 := adjacency'[x0] + [i]];
      inDegree' := inDegree'[i := inDegree'[i] + 1];
      cur := cur + [x0];
      k := k + 1;
    }
    failedAt := None;
  }

  /** Recording the edge x0 -> i for one more matched entry of node i keeps
      the edge counts in step with the matches so far. */
  lemma RecordEdge(adjacency: seq<seq<nat>>, base: seq<seq<nat>>, cur: seq<nat>, i: nat, x0: nat)
    requires x0 < |adjacency| && i < |adjacency| && |base| == |adjacency|
    requires forall x, m :: 0 <= x < |adjacency| && 0 <= m < |adjacency[x]| ==> adjacency[x][m] < |adjacency|
    requires forall x :: 0 <= x < |adjacency| ==> Count(adjacency[x], i) == Count(cur, x)
    requires forall x, j :: 0 <= x < |adjacency| && 0 <= j < |adjacency| && j != i ==>
      Count(adjacency[x], j) == Count(base[x], j)
    ensures var a := adjacency[x0 := adjacency[x0] + [i]];
      && (forall x, m :: 0 <= x < |a| && 0 <= m < |a[x]| ==> a[x][m] < |a|)
      && (forall x :: 0 <= x < |a| ==> Count(a[x], i) == Count(cur + [x0], x))
      && (forall x, j :: 0 <= x < |a| && 0 <= j < |a| && j != i ==> Count(a[x], j) == Count(base[x], j))
  {
    var a := adjacency[x0 := adjacency[x0] + [i]];
    forall x | 0 <= x < |a|
      ensures Count(a[x], i) == Count(cur + [x0], x)
    {
      CountSnoc(cur, x0, x);
      if x == x0 {
        CountSnoc(adjacency[x0], i, i);
      }
    }
    forall x, j | 0 <= x < |a| && 0 <= j < |a| && j != i
      ensures Count(a[x], j) == Count(base[x], j)
    {
      if x == x0 {
        CountSnoc(adjacency[x0], i, j);
      }
    }
  }

  /** The nodes whose in-degree is zero, in node order: the first ready queue. */
  method ZeroInDegree(inDegree: seq<int>) returns (queue: seq<nat>)
    ensures NoDup(queue)
    ensures forall j :: j in queue <==> 0 <= j < |inDegree| && inDegree[j] == 0
  {
    queue := [];
    var j := 0;
    while j < |inDegree|
      invariant 0 <= j <= |inDegree|
      invariant forall a, b :: 0 <= a < b < |queue| ==> queue[a] < queue[b]
      invariant forall a :: 0 <= a < |queue| ==> queue[a] < j
      invariant forall x :: x in queue <==> 0 <= x < j && inDegree[x] == 0
    {
      if inDegree[j] == 0 {
        queue := queue + [j];
      }
      j := j + 1;
    }
  }

  /** One finished node releases its dependents: each of their in-degrees drops
      by the number of edges from the finished node, and a dependent joins the
      queue at the moment its in-degree reaches zero. */
  method ReleaseDependents(dependents: seq<nat>, inDegree: seq<int>, queue: seq<nat>)
    returns (inDegree': seq<int>, queue': seq<nat>)
    requires forall m :: 0 <= m < |dependents| ==> dependents[m] < |inDegree|
    requires forall j :: 0 <= j < |inDegree| ==> Count(dependents, j) <= inDegree[j]
    ensures |inDegree'| == |inDegree|
    ensures forall j :: 0 <= j < |inDegree| ==> inDegree'[j] == inDegree[j] - Count(dependents, j)
    ensures |queue| <= |queue'| && queue'[..|queue|] == queue
    ensures NoDup(queue'[|queue|..])
    ensures forall j :: j in queue'[|queue|..] <==> 0 <= j < |inDegree| && inDegree[j] > 0 && inDegree'[j] == 0
  {
    inDegree' := inDegree;
    queue' := queue;
    var m := 0;
    while m < |dependents|
      invariant 0 <= m <= |dependents|
      invariant |inDegree'| == |inDegree|
      invariant forall j :: 0 <= j < |inDegree| ==> inDegree'[j] == inDegree[j] - Count(dependents[..m], j)
      invariant |queue| <= |queue'| && queue'[..|queue|] == queue
      invariant NoDup(queue'[|queue|..])
      invariant forall j :: j in queue'[|queue|..] <==> 0 <= j < |inDegree| && inDegree[j] > 0 && inDegree'[j] == 0
    {
      var d := dependents[m];
      assert dependents[..m + 1] == dependents[..m] + [d];
      forall j | 0 <= j < |inDegree|
        ensures Count(dependents[..m + 1], j) == Count(dependents[..m], j) + (if d == j then 1 else 0)
      {
        CountSnoc(dependents[..m], d, j);
      }
      CountPrefix(dependents, m + 1, d);
      ghost var added := queue'[|queue|..];
      assert Count(dependents[..m + 1], d) == Count(dependents[..m], d) + 1;
      assert Count(dependents, d) <= inDegree[d];
      assert inDegree'[d] >= 1;
      assert d !in added;
      inDegree' := inDegree'[d := inDegree'[d] - 1];
      if inDegree'[d] == 0 {
        queue' := queue' + [d];
        assert queue'[|queue|..] == added + [d];
      }
      m := m + 1;
    }
    assert dependents[..m] == dependents;
  }

  /** One round: the whole current queue is dequeued as one batch, each
      member releasing its dependents, which wait in the queue for the next round. */
  method DrainBatch(ghost preds: seq<seq<nat>>, adjacency: seq<seq<nat>>, inDegree: seq<int>,
                    queue: seq<nat>, ghost drained: set<nat>)
    returns (batch: seq<nat>, inDegree': seq<int>, queue': seq<nat>)
    requires Graph(preds, adjacency)
    requires Counted(preds, inDegree, drained)
    requires NoDup(queue)
    requires forall j :: j in queue ==> j < |preds| && j !in drained
    requires forall j :: 0 <= j < |preds| ==> (inDegree[j] == 0 <==> j in drained || j in queue)
    ensures batch == queue
    ensures Counted(preds, inDegree', drained + Elems(queue))
    ensures NoDup(queue')
    ensures forall j :: j in queue' ==> j < |preds| && j !in drained + Elems(queue)
    ensures forall j :: 0 <= j < |preds| ==> (inDegree'[j] == 0 <==> j in drained + Elems(queue) || j in queue')
  {
    var n := |preds|;
    var batchCount := |queue|;
    batch := [];
    inDegree' := inDegree;
    queue' := queue;
    ghost var next: seq<nat> := [];
    var i := 0;
    assert drained + Elems(queue[..0]) == drained;
    while i < batchCount
      invariant 0 <= i <= batchCount
      invariant batch == queue[..i]
      invariant queue' == queue[i..] + next
      invariant Counted(preds, inDegree', drained + Elems(queue[..i]))
      invariant NoDup(next)
      invariant forall j :: j in next ==> j < n && j !in drained && j !in queue
      invariant forall j :: 0 <= j < n ==> (inDegree'[j] == 0 <==> j in drained || j in queue || j in next)
    {
      ghost var done := drained + Elems(queue[..i]);
      var x := queue'[0];
      assert x == queue[i];
      assert x in queue;
      assert x !in done by {
        assert forall a :: 0 <= a < i ==> queue[a] != queue[i];
      }
      queue' := queue'[1..];
      assert queue' == queue[i + 1..] + next;
      batch := batch + [x];
      forall j | 0 <= j < n
        ensures Pending(preds[j], done + {x}) + Count(adjacency[x], j) == Pending(preds[j], done)
      {
        PendingDrain(preds[j], done, x);
        assert Count(adjacency[x], j) == Count(preds[j], x);
      }
      ghost var before := inDegree';
      ghost var oldQueue := queue';
      inDegree', queue' := ReleaseDependents(adjacency[x], inDegree', queue');
      ghost var released := queue'[|oldQueue|..];
      assert queue' == oldQueue + released;
      assert queue[..i + 1] == queue[..i] + [x];
      assert drained + Elems(queue[..i + 1]) == done + {x};
      forall j | j in released
        ensures j < n && j !in drained && j !in queue && j !in next
      {
        assert before[j] > 0;
      }
      NoDupConcat(next, released);
      next := next + released;
      i := i + 1;
    }
    assert queue[..i] == queue;
  }

  /** The level-by-level drain: each round the ready queue becomes a batch
      and the nodes it releases form the next queue, until the queue is empty. */
  method DrainLayers(ghost preds: seq<seq<nat>>, adjacency: seq<seq<nat>>, inDegree: seq<int>, queue0: seq<nat>)
    returns (batches: seq<seq<nat>>, inDegree': seq<int>)
    requires Graph(preds, adjacency)
    requires Counted(preds, inDegree, {})
    requires NoDup(queue0) && Elems(queue0) == Layer(preds, 0)
    requires forall j :: 0 <= j < |preds| ==> (inDegree[j] == 0 <==> j in queue0)
    ensures PlanPrefix(preds, batches) && Layer(preds, |batches|) == {}
    ensures Counted(preds, inDegree', Done(preds, |batches|))
    ensures forall j :: 0 <= j < |preds| ==> (inDegree'[j] == 0 <==> j in Done(preds, |batches|))
  {
    var n := |preds|;
    batches := [];
    inDegree' := inDegree;
    var queue: seq<nat> := queue0;
    ghost var drained: set<nat> := {};
    while |queue| > 0
      invariant drained == Done(preds, |batches|)
      invariant Counted(preds, inDegree', drained)
      invariant NoDup(queue)
      invariant Elems(queue) == Layer(preds, |batches|)
      invariant forall j :: 0 <= j < n ==> (inDegree'[j] == 0 <==> j in drained || j in queue)
      invariant PlanPrefix(preds, batches)
      decreases Stuck(preds, |batches|)
    {
      forall j | j in queue
        ensures j < n && j !in drained
      {
        assert j in Elems(queue);
      }
      var batch, inDegree'', queue' := DrainBatch(preds, adjacency, inDegree', queue, drained);
      RoundAdvances(preds, batches, queue, queue', inDegree'', drained);
      batches := batches + [batch];
      inDegree', queue, drained := inDegree'', queue', drained + Elems(queue);
    }
  }

  /** After a round the drained nodes are the first layers plus one, the new
      queue is the next layer, and fewer nodes are left unplaced. */
  lemma RoundAdvances(preds: seq<seq<nat>>, batches: seq<seq<nat>>, queue: seq<nat>, queue': seq<nat>,
                      inDegree: seq<int>, drained: set<nat>)
    requires drained == Done(preds, |batches|) && PlanPrefix(preds, batches)
    requires queue != [] && NoDup(queue) && Elems(queue) == Layer(preds, |batches|)
    requires Counted(preds, inDegree, drained + Elems(queue))
    requires forall j :: j in queue' ==> j < |preds| && j !in drained + Elems(queue)
    requires forall j :: 0 <= j < |preds| ==> (inDegree[j] == 0 <==> j in drained + Elems(queue) || j in queue')
    ensures drained + Elems(queue) == Done(preds, |batches| + 1)
    ensures Elems(queue') == Layer(preds, |batches| + 1)
    ensures PlanPrefix(preds, batches + [queue])
    ensures Stuck(preds, |batches| + 1) < Stuck(preds, |batches|)
  {
    var drained' := drained + Elems(queue);
    assert drained' == Done(preds, |batches| + 1);
    forall j | 0 <= j < |preds|
      ensures j in queue' <==> j in Ready(preds, drained')
    {
      PendingZero(preds[j], drained');
    }
    assert queue[0] in Elems(queue);
    assert queue[0] in Stuck(preds, |batches|) - Stuck(preds, |batches| + 1);
    PlanPrefixExtend(preds, batches, queue);
  }

  /** The planner: resolve, then drain the ready queue round by round, then
      report every node whose in-degree stayed positive as part of a cycle. */
  method BuildBatches<T>(types: seq<T>, deps: seq<seq<T>>, assignable: (T, T) -> bool)
    returns (r: Result<seq<seq<nat>>, PlanError<T>>)
    requires |deps| == |types|
    ensures (r.Failure? && r.error.UnresolvedAt?) <==> !ResolvesAll(types, deps, assignable)
    ensures r.Failure? && r.error.UnresolvedAt? ==>
      && r.error.node < |deps|
      && exists k :: 0 <= k < |deps[r.error.node]| && deps[r.error.node][k] == r.error.dependency
                     && !Resolves(types, r.error.dependency, assignable)
                     && ResolvedBefore(types, deps, assignable, r.error.node, k)
    ensures r.Success? ==> IsPlan(Preds(types, deps, assignable), r.value)
    ensures r.Failure? && r.error.CyclicAt? ==>
      && (exists k :: Layer(Preds(types, deps, assignable), k) == {}
                      && r.error.nodes == Stuck(Preds(types, deps, assignable), k))
      && SelfBlocking(Preds(types, deps, assignable), r.error.nodes)
  {
    var adjacency, inDegree, failedAt := ResolveDependencies(types, deps, assignable);
    if failedAt.Some? {
      var (i, k) := failedAt.value;
      r := Failure(UnresolvedAt(i, deps[i][k]));
      return;
    }
    ghost var preds := Preds(types, deps, assignable);
    var n := |types|;
    forall j | 0 <= j < n
      ensures inDegree[j] == Pending(preds[j], {})
    {
      PendingAll(preds[j]);
    }
    forall j | 0 <= j < n
      ensures inDegree[j] == 0 <==> forall p :: p in preds[j] ==> p in {}
    {
      PendingZero(preds[j], {});
    }
    var queue: seq<nat> := ZeroInDegree(inDegree);
    assert Elems(queue) == Layer(preds, 0) by {
      assert Done(preds, 0) == {};
      forall j
        ensures j in Elems(queue) <==> j in Ready(preds, {})
      {
      }
    }
    var batches;
    batches, inDegree := DrainLayers(preds, adjacency, inDegree, queue);
    var stuck := set j | 0 <= j < n && inDegree[j] > 0;
    assert stuck == Stuck(preds, |batches|) by {
      forall j | 0 <= j < n
        ensures inDegree[j] > 0 <==> j !in Done(preds, |batches|)
      {
        assert inDegree[j] == Pending(preds[j], Done(preds, |batches|));
      }
    }
    if stuck != {} {
      LeftoverBlocks(preds, |batches|);
      r := Failure(CyclicAt(stuck));
    } else {
      r := Success(batches);
    }
  }
}
