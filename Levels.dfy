/** The level structure a dependency graph induces, stated independently of
    any queue: a node is ready once every node it depends on is done, and the
    k-th layer is what becomes ready after k rounds. Nodes are registration
    indices 0..n-1; `preds[i]` lists, one entry per declared dependency and in
    declaration order, the index that dependency resolved to. */
module Levels {
  import opened Common

  ghost predicate WellFormed(preds: seq<seq<nat>>) {
    forall i, k :: 0 <= i < |preds| && 0 <= k < |preds[i]| ==> preds[i][k] < |preds|
  }

  /** Nodes not placed in the first k layers. */
  function Stuck(preds: seq<seq<nat>>, k: nat): set<nat> {
    set i | 0 <= i < |preds| && i !in Done(preds, k)
  }

  /** Nodes not yet done all of whose dependencies are done. */
  function Ready(preds: seq<seq<nat>>, done: set<nat>): set<nat> {
    set i | 0 <= i < |preds| && i !in done && (forall p :: p in preds[i] ==> p in done)
  }

  /** Nodes placed in the first k layers. */
  function Done(preds: seq<seq<nat>>, k: nat): set<nat> {
    if k == 0 then {} else Done(preds, k - 1) + Ready(preds, Done(preds, k - 1))
  }

  /** Layer k: exactly the nodes a level-synchronous schedule runs in round k. */
  function Layer(preds: seq<seq<nat>>, k: nat): set<nat> {
    Ready(preds, Done(preds, k))
  }

  /** A batch plan: batch m holds layer m, without repetition and never empty,
      and the plan places every node. */
  ghost predicate IsPlan(preds: seq<seq<nat>>, batches: seq<seq<nat>>) {
    PlanPrefix(preds, batches) && Stuck(preds, |batches|) == {}
  }

  /** The batches so far are the first layers, in order. */
  ghost predicate PlanPrefix(preds: seq<seq<nat>>, batches: seq<seq<nat>>) {
    forall m :: 0 <= m < |batches| ==>
      Elems(batches[m]) == Layer(preds, m) && NoDup(batches[m]) && batches[m] != []
  }

  lemma PlanPrefixExtend(preds: seq<seq<nat>>, batches: seq<seq<nat>>, batch: seq<nat>)
    requires PlanPrefix(preds, batches)
    requires Elems(batch) == Layer(preds, |batches|) && NoDup(batch) && batch != []
    ensures PlanPrefix(preds, batches + [batch])
  {
    var b := batches + [batch];
    forall m | 0 <= m < |b|
      ensures Elems(b[m]) == Layer(preds, m) && NoDup(b[m]) && b[m] != []
    {
      if m < |batches| {
        assert b[m] == batches[m];
      }
    }
  }

  /** A non-empty set of nodes each of which waits on another member: a
      cycle, or a set that leads into one. */
  ghost predicate SelfBlocking(preds: seq<seq<nat>>, c: set<nat>) {
    && c != {}
    && (forall i :: i in c ==> i < |preds|)
    && (forall i {:trigger WaitsWithin(preds, c, i)} :: i in c ==> WaitsWithin(preds, c, i))
  }

  /** Node i has a dependency entry naming a member of c. */
  ghost predicate WaitsWithin(preds: seq<seq<nat>>, c: set<nat>, i: nat)
    requires i < |preds|
  {
    exists p :: p in preds[i] && p in c
  }

  lemma {:induction false} DoneMonotone(preds: seq<seq<nat>>, k1: nat, k2: nat)
    requires k1 <= k2
    ensures Done(preds, k1) <= Done(preds, k2)
  {
    if k1 < k2 {
      DoneMonotone(preds, k1, k2 - 1);
    }
  }

  /** Membership in the first k layers means membership in one of them. */
  lemma {:induction false} DoneIsUnionOfLayers(preds: seq<seq<nat>>, k: nat, i: nat)
    ensures i in Done(preds, k) <==> exists m :: 0 <= m < k && i in Layer(preds, m)
  {
    if k > 0 {
      DoneIsUnionOfLayers(preds, k - 1, i);
      if i in Done(preds, k) && i !in Done(preds, k - 1) {
        assert i in Layer(preds, k - 1);
      }
    }
  }

  /** Distinct layers never share a node. */
  lemma LayersDisjoint(preds: seq<seq<nat>>, m1: nat, m2: nat, i: nat)
    requires m1 < m2
    requires i in Layer(preds, m1)
    ensures i !in Layer(preds, m2)
  {
    DoneMonotone(preds, m1 + 1, m2);
  }

  /** Every dependency of a node in layer k sits in a strictly earlier layer. */
  lemma DependencyInEarlierLayer(preds: seq<seq<nat>>, k: nat, i: nat, p: nat)
    requires i in Layer(preds, k)
    requires p in preds[i]
    ensures exists m :: 0 <= m < k && p in Layer(preds, m)
  {
    DoneIsUnionOfLayers(preds, k, p);
  }

  /** Layers are minimal: a node in layer k > 0 has a dependency in layer k-1,
      so it could not have run any earlier. */
  lemma LayerIsMinimal(preds: seq<seq<nat>>, k: nat, i: nat)
    requires 0 < k
    requires i in Layer(preds, k)
    ensures exists p :: p in preds[i] && p in Layer(preds, k - 1)
  {
    var d := Done(preds, k - 1);
    assert i !in Ready(preds, d);
    var p :| p in preds[i] && p !in d;
  }

  /** The first layer is exactly the nodes with no dependency entries. */
  lemma FirstLayer(preds: seq<seq<nat>>, i: nat)
    requires i < |preds|
    ensures i in Layer(preds, 0) <==> preds[i] == []
  {
    if preds[i] != [] {
      assert preds[i][0] in preds[i];
    }
  }

  /** Once a layer is empty, nothing more is ever placed. */
  lemma {:induction false} EmptyLayerIsFinal(preds: seq<seq<nat>>, k: nat, j: nat)
    requires Layer(preds, k) == {}
    requires k <= j
    ensures Done(preds, j) == Done(preds, k)
  {
    if k < j {
      EmptyLayerIsFinal(preds, k, j - 1);
    }
  }

  /** The nodes left over when the layers run out block one another. */
  lemma LeftoverBlocks(preds: seq<seq<nat>>, k: nat)
    requires WellFormed(preds)
    requires Layer(preds, k) == {}
    requires Stuck(preds, k) != {}
    ensures SelfBlocking(preds, Stuck(preds, k))
  {
    var d := Done(preds, k);
    var c := Stuck(preds, k);
    forall i | i in c
      ensures WaitsWithin(preds, c, i)
    {
      assert i !in Ready(preds, d);
      var p :| p in preds[i] && p !in d;
      assert p in c;
    }
  }

  /** A self-blocking set is never placed in any layer. */
  lemma {:induction false} BlockedNeverDone(preds: seq<seq<nat>>, c: set<nat>, k: nat)
    requires SelfBlocking(preds, c)
    ensures forall i :: i in c ==> i !in Done(preds, k)
  {
    if k > 0 {
      BlockedNeverDone(preds, c, k - 1);
      forall i | i in c
        ensures i !in Done(preds, k)
      {
        BlockedNotReady(preds, c, Done(preds, k - 1), i);
      }
    }
  }

  lemma BlockedNotReady(preds: seq<seq<nat>>, c: set<nat>, d: set<nat>, i: nat)
    requires SelfBlocking(preds, c)
    requires forall j :: j in c ==> j !in d
    requires i in c
    ensures i !in Ready(preds, d)
  {
    assert WaitsWithin(preds, c, i);
    var p :| p in preds[i] && p in c;
  }

  /** No plan exists while some set of nodes blocks itself. */
  lemma BlockingExcludesPlan(preds: seq<seq<nat>>, batches: seq<seq<nat>>, c: set<nat>)
    requires SelfBlocking(preds, c)
    ensures !IsPlan(preds, batches)
  {
    BlockedNeverDone(preds, c, |batches|);
    var i :| i in c;
    assert i in Stuck(preds, |batches|);
  }

  /** A plan places every node in some batch. */
  lemma PlanPlacesEveryNode(preds: seq<seq<nat>>, batches: seq<seq<nat>>, i: nat)
    requires IsPlan(preds, batches)
    requires i < |preds|
    ensures exists m, j :: 0 <= m < |batches| && 0 <= j < |batches[m]| && batches[m][j] == i
  {
    assert i !in Stuck(preds, |batches|);
    DoneIsUnionOfLayers(preds, |batches|, i);
    var m :| 0 <= m < |batches| && i in Layer(preds, m);
    assert i in Elems(batches[m]);
    var j :| 0 <= j < |batches[m]| && batches[m][j] == i;
  }

  /** A plan places no node twice, within a batch or across batches. */
  lemma PlanIsDistinct(preds: seq<seq<nat>>, batches: seq<seq<nat>>)
    requires IsPlan(preds, batches)
    ensures Distinct(batches)
  {
    forall m1, i1, m2, i2 |
      && 0 <= m1 < |batches| && 0 <= i1 < |batches[m1]| && 0 <= m2 < |batches| && 0 <= i2 < |batches[m2]|
      && batches[m1][i1] == batches[m2][i2]
      ensures m1 == m2 && i1 == i2
    {
      var x := batches[m1][i1];
      assert x in Elems(batches[m1]) && x in Elems(batches[m2]);
      if m1 < m2 {
        LayersDisjoint(preds, m1, m2, x);
      } else if m2 < m1 {
        LayersDisjoint(preds, m2, m1, x);
      }
    }
  }

  /** Every node a batched node depends on sits in a strictly earlier batch. */
  lemma PlanOrdersDependencies(preds: seq<seq<nat>>, batches: seq<seq<nat>>, m: nat, j: nat, p: nat)
    requires IsPlan(preds, batches)
    requires m < |batches| && j < |batches[m]|
    requires batches[m][j] < |preds| && p in preds[batches[m][j]]
    ensures exists m', j' :: 0 <= m' < m && 0 <= j' < |batches[m']| && batches[m'][j'] == p
  {
    var i := batches[m][j];
    assert i in Elems(batches[m]);
    DependencyInEarlierLayer(preds, m, i, p);
    var m' :| 0 <= m' < m && p in Layer(preds, m');
    assert p in Elems(batches[m']);
    var j' :| 0 <= j' < |batches[m']| && batches[m'][j'] == p;
  }

  /** Every entry of a plan names a node. */
  lemma PlanInRange(preds: seq<seq<nat>>, batches: seq<seq<nat>>)
    requires IsPlan(preds, batches)
    ensures forall m, j :: 0 <= m < |batches| && 0 <= j < |batches[m]| ==> batches[m][j] < |preds|
  {
    forall m, j | 0 <= m < |batches| && 0 <= j < |batches[m]|
      ensures batches[m][j] < |preds|
    {
      assert batches[m][j] in Elems(batches[m]);
    }
  }
}
