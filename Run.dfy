/** What one run of the startup context does, as a value: the batches fire
    in order, each node of a batch running its start callbacks, its system
    and its complete callbacks; after a batch, unless cancellation was
    requested, each critical node of the batch is struck from the critical
    set, and the "critical systems initialized" event fires when the set
    empties. Nodes are identified by a type `N` (the context uses node
    references); `views` gives each node's state when the run begins. */
module RunModel {
  import opened Common
  import opened NodeModel

  /** `Ok`: not stopped (after the last batch, finished normally).
      `Cancelled`: cancellation was observed after a batch.
      `Faulted`: a critical node was missing from the critical set, the
      exception that ends the run. */
  datatype Status = Ok | Cancelled | Faulted

  /** The trace so far, the critical set, the status, and how many batches fired. */
  datatype RunState<N, T> = RunState(events: seq<Event<T>>, critical: set<N>, status: Status, fired: nat)

  /** Cancellation as observed after each batch; entries past the end read as "not requested". */
  predicate CancelledAfter(cancel: seq<bool>, k: nat) {
    k < |cancel| && cancel[k]
  }

  predicate Covers<N, T>(batches: seq<seq<N>>, views: map<N, NodeView<T>>) {
    forall m, j :: 0 <= m < |batches| && 0 <= j < |batches[m]| ==> batches[m][j] in views
  }

  predicate InViews<N, T>(batch: seq<N>, views: map<N, NodeView<T>>) {
    forall j :: 0 <= j < |batch| ==> batch[j] in views
  }

  /** Number of "critical systems initialized" events in a trace. */
  function ReadyCount<T>(events: seq<Event<T>>): nat {
    if events == [] then 0
    else ReadyCount(events[..|events| - 1]) + (if events[|events| - 1].CriticalReady? then 1 else 0)
  }

  lemma {:induction false} ReadyCountAppend<T>(a: seq<Event<T>>, b: seq<Event<T>>)
    ensures ReadyCount(a + b) == ReadyCount(a) + ReadyCount(b)
    decreases |b|
  {
    if b == [] {
      assert a + b == a;
    } else {
      assert (a + b)[..|a + b| - 1] == a + b[..|b| - 1];
      ReadyCountAppend(a, b[..|b| - 1]);
    }
  }

  function Fire<T>(v: NodeView<T>): seq<Event<T>> {
    NodeEvents(v.systemType, v.onStarted, v.onCompleted)
  }

  /** The events of one batch: each node's own events, in batch order. Every
      node's system initialises, and nothing else than node events occurs. */
  function BatchEvents<N, T>(batch: seq<N>, views: map<N, NodeView<T>>): (r: seq<Event<T>>)
    requires InViews(batch, views)
    ensures forall j :: 0 <= j < |batch| ==> Initialized(views[batch[j]].systemType) in r
    ensures ReadyCount(r) == 0
  {
    if batch == [] then []
    else
      var prior := BatchEvents(batch[..|batch| - 1], views);
      BatchEventsGrow(batch, batch[..|batch| - 1], views, prior);
      prior + Fire(views[batch[|batch| - 1]])
  }

  lemma BatchEventsGrow<N, T>(batch: seq<N>, init: seq<N>, views: map<N, NodeView<T>>, prior: seq<Event<T>>)
    requires batch != [] && InViews(batch, views) && init == batch[..|batch| - 1]
    requires forall j :: 0 <= j < |init| ==> init[j] in views && Initialized(views[init[j]].systemType) in prior
    requires ReadyCount(prior) == 0
    ensures forall j :: 0 <= j < |batch| ==> Initialized(views[batch[j]].systemType) in prior + Fire(views[batch[|batch| - 1]])
    ensures ReadyCount(prior + Fire(views[batch[|batch| - 1]])) == 0
  {
    var last := views[batch[|batch| - 1]];
    var f := Fire(last);
    assert f[|last.onStarted|] == Initialized(last.systemType);
    forall j | 0 <= j < |batch|
      ensures Initialized(views[batch[j]].systemType) in prior + f
    {
      if j < |batch| - 1 {
        assert init[j] == batch[j];
      }
    }
    ReadyCountAppend(prior, f);
    NoReadyInNodeEvents(last);
  }

  /** `f` occurs in `e` starting at position `o`. */
  ghost predicate SitsAt<X>(e: seq<X>, o: nat, f: seq<X>) {
    o + |f| <= |e| && e[o..o + |f|] == f
  }

  /** Blocks laid end to end. */
  function Flatten<X>(bs: seq<seq<X>>): seq<X> {
    if bs == [] then [] else Flatten(bs[..|bs| - 1]) + bs[|bs| - 1]
  }

  /** Where block j begins once the blocks are laid end to end. */
  function Start<X>(bs: seq<seq<X>>, j: nat): nat
    requires j <= |bs|
  {
    if j == 0 then 0 else Start(bs, j - 1) + |bs[j - 1]|
  }

  lemma {:induction false} StartPrefix<X>(bs: seq<seq<X>>, n: nat, j: nat)
    requires j <= n <= |bs|
    ensures Start(bs[..n], j) == Start(bs, j)
  {
    if j > 0 {
      StartPrefix(bs, n, j - 1);
      assert bs[..n][j - 1] == bs[j - 1];
    }
  }

  lemma {:induction false} StartGrows<X>(bs: seq<seq<X>>, i: nat, j: nat)
    requires i <= j <= |bs|
    ensures Start(bs, i) <= Start(bs, j)
  {
    if i < j {
      StartGrows(bs, i, j - 1);
    }
  }

  /** Laid end to end, the blocks fill exactly up to where a next block would begin. */
  lemma {:induction false} FlattenLength<X>(bs: seq<seq<X>>)
    ensures |Flatten(bs)| == Start(bs, |bs|)
  {
    if bs != [] {
      var n := |bs| - 1;
      FlattenLength(bs[..n]);
      StartPrefix(bs, n, n);
    }
  }

  /** Laid end to end, block j occupies exactly the positions from
      `Start(bs, j)` on. */
  lemma {:induction false} FlattenBlock<X>(bs: seq<seq<X>>, j: nat)
    requires j < |bs|
    ensures SitsAt(Flatten(bs), Start(bs, j), bs[j])
  {
    var n := |bs| - 1;
    var init := bs[..n];
    var p := Flatten(init);
    assert Flatten(bs) == p + bs[n];
    FlattenLength(init);
    StartPrefix(bs, n, n);
    if j < n {
      FlattenBlock(init, j);
      StartPrefix(bs, n, j);
      StartGrows(init, j + 1, n);
      assert init[j] == bs[j];
      KeepSlice(p, bs[n], Start(init, j), init[j]);
    } else {
      LastSlice(p, bs[n]);
    }
  }

  /** The appended part sits right after what it was appended to. */
  lemma LastSlice<X>(p: seq<X>, q: seq<X>)
    ensures SitsAt(p + q, |p|, q)
  {
    forall k | 0 <= k < |q|
      ensures (p + q)[|p|..|p| + |q|][k] == q[k]
    {
      assert (p + q)[|p| + k] == q[k];
    }
  }

  /** A slice stays as it was when more is appended. */
  lemma KeepSlice<X>(p: seq<X>, q: seq<X>, a: nat, g: seq<X>)
    requires SitsAt(p, a, g)
    ensures SitsAt(p + q, a, g)
  {
    assert (p + q)[a..a + |g|] == p[a..a + |g|];
  }

  /** The events of each node of a batch, one block per node. */
  function Fires<N, T>(batch: seq<N>, views: map<N, NodeView<T>>): (bs: seq<seq<Event<T>>>)
    requires InViews(batch, views)
    ensures |bs| == |batch|
  {
    if batch == [] then []
    else
      assert InViews(batch[..|batch| - 1], views);
      Fires(batch[..|batch| - 1], views) + [Fire(views[batch[|batch| - 1]])]
  }

  /** Block j is node j's events. */
  lemma {:induction false} FiresAt<N, T>(batch: seq<N>, views: map<N, NodeView<T>>, j: nat)
    requires InViews(batch, views) && j < |batch|
    ensures Fires(batch, views)[j] == Fire(views[batch[j]])
  {
    var n := |batch| - 1;
    var init := batch[..n];
    assert InViews(init, views);
    if j < n {
      FiresAt(init, views, j);
      assert init[j] == batch[j];
    }
  }

  /** A batch's events are its nodes' events laid end to end, in batch order. */
  lemma {:induction false} BatchEventsBlocks<N, T>(batch: seq<N>, views: map<N, NodeView<T>>)
    requires InViews(batch, views)
    ensures BatchEvents(batch, views) == Flatten(Fires(batch, views))
  {
    if batch != [] {
      var n := |batch| - 1;
      var init := batch[..n];
      assert InViews(init, views);
      BatchEventsBlocks(init, views);
      var bs := Fires(batch, views);
      assert bs == Fires(init, views) + [Fire(views[batch[n]])];
      assert bs[..n] == Fires(init, views);
    }
  }

  lemma BatchEventsSnoc<N, T>(batch: seq<N>, i: nat, views: map<N, NodeView<T>>)
    requires i < |batch| && InViews(batch, views)
    ensures InViews(batch[..i], views) && InViews(batch[..i + 1], views)
    ensures BatchEvents(batch[..i + 1], views) == BatchEvents(batch[..i], views) + Fire(views[batch[i]])
  {
    assert batch[..i + 1][..i] == batch[..i];
  }

  lemma NoReadyInNodeEvents<T>(v: NodeView<T>)
    ensures ReadyCount(Fire(v)) == 0
  {
    var f := Fire(v);
    forall p | 0 <= p < |f|
      ensures !f[p].CriticalReady?
    {
      NodeEventsAbout(v.systemType, v.onStarted, v.onCompleted, f[p]);
    }
    NoReadyCount(f);
  }

  lemma {:induction false} NoReadyCount<T>(f: seq<Event<T>>)
    requires forall p :: 0 <= p < |f| ==> !f[p].CriticalReady?
    ensures ReadyCount(f) == 0
  {
    if f != [] {
      NoReadyCount(f[..|f| - 1]);
    }
  }

  /** Outcome of striking one node from the critical set. */
  datatype Removal<N> = Removal(critical: set<N>, ready: bool)

  /** Striking node `n` out: a node not flagged critical changes nothing; a
      flagged node missing from the set is an error (`None`); otherwise it is
      removed, and the event is due exactly when the set becomes empty. */
  function RemoveCritical<N>(critical: set<N>, isCritical: bool, n: N): (r: Option<Removal<N>>)
    ensures !isCritical ==> r == Some(Removal(critical, false))
    ensures isCritical ==> (r.None? <==> n !in critical)
    ensures r.Some? ==> r.value.critical <= critical && (critical - r.value.critical) <= {n}
    ensures isCritical && n in critical ==> r.Some? && r.value.critical == critical - {n}
    ensures r.Some? ==> (r.value.ready <==> critical != {} && r.value.critical == {} && isCritical)
  {
    if !isCritical then Some(Removal(critical, false))
    else if n !in critical then None
    else Some(Removal(critical - {n}, critical - {n} == {}))
  }

  /** The removal pass over a batch, stopping at the first error. */
  function Sweep<N, T>(s: RunState<N, T>, batch: seq<N>, views: map<N, NodeView<T>>): (r: RunState<N, T>)
    requires InViews(batch, views)
    ensures r.critical <= s.critical && r.fired == s.fired && s.events <= r.events
    ensures s.status != Ok ==> r == s
  {
    if batch == [] then s
    else
      var s' := Sweep(s, batch[..|batch| - 1], views);
      var n := batch[|batch| - 1];
      if s'.status != Ok then s'
      else match RemoveCritical(s'.critical, views[n].critical, n)
        case None => s'.(status := Faulted)
        case Some(rm) => s'.(critical := rm.critical, events := s'.events + (if rm.ready then [CriticalReady] else []))
  }

  /** Once the removal pass has stopped, the rest of the batch changes nothing. */
  lemma {:induction false} SweepStops<N, T>(s: RunState<N, T>, batch: seq<N>, i: nat, views: map<N, NodeView<T>>)
    requires i <= |batch| && InViews(batch, views)
    requires assert InViews(batch[..i], views); Sweep(s, batch[..i], views).status != Ok
    ensures assert InViews(batch[..i], views); Sweep(s, batch, views) == Sweep(s, batch[..i], views)
    decreases |batch| - i
  {
    if i < |batch| {
      var next := batch[..i + 1];
      assert next[..|next| - 1] == batch[..i];
      assert InViews(next, views);
      assert Sweep(s, next, views) == Sweep(s, batch[..i], views);
      SweepStops(s, batch, i + 1, views);
    } else {
      assert batch[..i] == batch;
    }
  }

  /** The state after the first k batches have been dealt with. */
  function RunUpTo<N, T>(batches: seq<seq<N>>, views: map<N, NodeView<T>>, critical0: set<N>, cancel: seq<bool>, k: nat): (r: RunState<N, T>)
    requires k <= |batches| && Covers(batches, views)
    ensures r.critical <= critical0
    ensures r.fired <= k && (r.status == Ok ==> r.fired == k)
  {
    if k == 0 then RunState([], critical0, Ok, 0)
    else
      var s := RunUpTo(batches, views, critical0, cancel, k - 1);
      if s.status != Ok then s
      else
        assert InViews(batches[k - 1], views);
        var s1 := s.(events := s.events + BatchEvents(batches[k - 1], views), fired := k);
        if CancelledAfter(cancel, k - 1) then s1.(status := Cancelled)
        else Sweep(s1, batches[k - 1], views)
  }

  /** One more batch, when the run has not stopped. */
  lemma RunStep<N, T>(batches: seq<seq<N>>, views: map<N, NodeView<T>>, critical0: set<N>, cancel: seq<bool>, k: nat,
                      events: seq<Event<T>>, critical: set<N>)
    requires k < |batches| && Covers(batches, views)
    requires RunUpTo(batches, views, critical0, cancel, k) == RunState(events, critical, Ok, k)
    ensures assert InViews(batches[k], views);
      var s1 := RunState(events + BatchEvents(batches[k], views), critical, Ok, k + 1);
      RunUpTo(batches, views, critical0, cancel, k + 1) == if CancelledAfter(cancel, k) then s1.(status := Cancelled) else Sweep(s1, batches[k], views)
  {
  }

  /** The whole run. */
  function Run<N, T>(batches: seq<seq<N>>, views: map<N, NodeView<T>>, critical0: set<N>, cancel: seq<bool>): RunState<N, T>
    requires Covers(batches, views)
  {
    RunUpTo(batches, views, critical0, cancel, |batches|)
  }

  /** The "critical systems initialized" event has fired once when a
      non-empty critical set has been emptied, and otherwise not at all. */
  ghost predicate ReadyAccounted<N, T>(s: RunState<N, T>, critical0: set<N>) {
    s.critical <= critical0 && ReadyCount(s.events) == if critical0 != {} && s.critical == {} then 1 else 0
  }

  lemma {:induction false} SweepAccountsReady<N, T>(s: RunState<N, T>, batch: seq<N>, views: map<N, NodeView<T>>, critical0: set<N>)
    requires InViews(batch, views)
    requires ReadyAccounted(s, critical0)
    ensures ReadyAccounted(Sweep(s, batch, views), critical0)
  {
    if batch != [] {
      var init := batch[..|batch| - 1];
      assert InViews(init, views);
      SweepAccountsReady(s, init, views, critical0);
      var s' := Sweep(s, init, views);
      var n := batch[|batch| - 1];
      if s'.status == Ok {
        var rm := RemoveCritical(s'.critical, views[n].critical, n);
        if rm.Some? {
          ReadyCountAppend(s'.events, if rm.value.ready then [CriticalReady] else []);
          var one: seq<Event<T>> := [CriticalReady];
          assert ReadyCount(one) == 1 by {
            assert one[..0] == [];
          }
        }
      }
    }
  }

  /** The event fires at most once, never when the run starts with no
      critical node, and exactly once when the critical set has been emptied. */
  lemma {:induction false} ReadyFiresOnce<N, T>(batches: seq<seq<N>>, views: map<N, NodeView<T>>, critical0: set<N>, cancel: seq<bool>, k: nat)
    requires k <= |batches| && Covers(batches, views)
    ensures var r := RunUpTo(batches, views, critical0, cancel, k);
      ReadyCount(r.events) == if critical0 != {} && r.critical == {} then 1 else 0
  {
    if k > 0 {
      ReadyFiresOnce(batches, views, critical0, cancel, k - 1);
      var s := RunUpTo(batches, views, critical0, cancel, k - 1);
      if s.status == Ok {
        assert InViews(batches[k - 1], views);
        var b := BatchEvents(batches[k - 1], views);
        ReadyCountAppend(s.events, b);
        var s1 := s.(events := s.events + b, fired := k);
        if !CancelledAfter(cancel, k - 1) {
          SweepAccountsReady(s1, batches[k - 1], views, critical0);
        }
      }
    }
  }

  /** After a cancellation or a fault no later batch fires and nothing more happens. */
  lemma {:induction false} StopIsFinal<N, T>(batches: seq<seq<N>>, views: map<N, NodeView<T>>, critical0: set<N>, cancel: seq<bool>, k: nat, j: nat)
    requires k <= j <= |batches| && Covers(batches, views)
    requires RunUpTo(batches, views, critical0, cancel, k).status != Ok
    ensures RunUpTo(batches, views, critical0, cancel, j) == RunUpTo(batches, views, critical0, cancel, k)
  {
    if k < j {
      StopIsFinal(batches, views, critical0, cancel, k, j - 1);
    }
  }

  /** Cancellation observed after batch k: batch k has fired in full, none of
      its critical nodes is struck out, and the run ends there. */
  lemma CancelStops<N, T>(batches: seq<seq<N>>, views: map<N, NodeView<T>>, critical0: set<N>, cancel: seq<bool>, k: nat)
    requires k < |batches| && Covers(batches, views)
    requires RunUpTo(batches, views, critical0, cancel, k).status == Ok
    requires CancelledAfter(cancel, k)
    ensures var s := RunUpTo(batches, views, critical0, cancel, k);
      assert InViews(batches[k], views);
      Run(batches, views, critical0, cancel) == RunState(s.events + BatchEvents(batches[k], views), s.critical, Cancelled, k + 1)
  {
    StopIsFinal(batches, views, critical0, cancel, k + 1, |batches|);
  }

  lemma InPrefix<X>(a: seq<X>, b: seq<X>, x: X)
    requires a <= b && x in a
    ensures x in b
  {
    var p :| 0 <= p < |a| && a[p] == x;
    assert b[p] == x;
  }

  /** Every critical node struck out so far has initialised. */
  ghost predicate StruckAfterInit<N, T>(s: RunState<N, T>, critical0: set<N>, views: map<N, NodeView<T>>) {
    forall n :: n in critical0 && n !in s.critical ==> n in views && Initialized(views[n].systemType) in s.events
  }

  /** Wherever the event occurs, every node of the initial critical set has
      initialised earlier in the trace. */
  ghost predicate ReadyAfterCriticals<N, T>(events: seq<Event<T>>, critical0: set<N>, views: map<N, NodeView<T>>) {
    forall p, n :: 0 <= p < |events| && events[p].CriticalReady? && n in critical0 ==>
      n in views && Initialized(views[n].systemType) in events[..p]
  }

  lemma ReadyAfterCriticalsGrow<N, T>(events: seq<Event<T>>, more: seq<Event<T>>, critical0: set<N>, views: map<N, NodeView<T>>)
    requires ReadyAfterCriticals(events, critical0, views)
    requires forall p :: 0 <= p < |more| ==> !more[p].CriticalReady?
    ensures ReadyAfterCriticals(events + more, critical0, views)
  {
    var e := events + more;
    forall p, n | 0 <= p < |e| && e[p].CriticalReady? && n in critical0
      ensures n in views && Initialized(views[n].systemType) in e[..p]
    {
      if p < |events| {
        assert e[..p] == events[..p];
      } else {
        assert false;
      }
    }
  }

  lemma {:induction false} SweepReadyAfterCriticals<N, T>(s: RunState<N, T>, batch: seq<N>, views: map<N, NodeView<T>>, critical0: set<N>)
    requires InViews(batch, views) && s.critical <= critical0
    requires forall j :: 0 <= j < |batch| ==> Initialized(views[batch[j]].systemType) in s.events
    requires StruckAfterInit(s, critical0, views)
    requires ReadyAfterCriticals(s.events, critical0, views)
    ensures StruckAfterInit(Sweep(s, batch, views), critical0, views)
    ensures ReadyAfterCriticals(Sweep(s, batch, views).events, critical0, views)
  {
    if batch != [] {
      var init := batch[..|batch| - 1];
      assert InViews(init, views);
      assert forall j :: 0 <= j < |init| ==> init[j] == batch[j];
      SweepReadyAfterCriticals(s, init, views, critical0);
      var s' := Sweep(s, init, views);
      var n := batch[|batch| - 1];
      InPrefix(s.events, s'.events, Initialized(views[n].systemType));
      if s'.status == Ok {
        var rm := RemoveCritical(s'.critical, views[n].critical, n);
        if rm.Some? {
          var more: seq<Event<T>> := if rm.value.ready then [CriticalReady] else [];
          var e := s'.events + more;
          forall m | m in critical0 && m !in rm.value.critical
            ensures m in views && Initialized(views[m].systemType) in s'.events
          {
            if m != n {
              assert m !in s'.critical;
            }
          }
          forall p, m | 0 <= p < |e| && e[p].CriticalReady? && m in critical0
            ensures m in views && Initialized(views[m].systemType) in e[..p]
          {
            if p < |s'.events| {
              assert e[..p] == s'.events[..p];
            } else {
              assert p == |s'.events| && e[..p] == s'.events;
              assert rm.value.critical == {};
            }
          }
          forall m | m in critical0 && m !in rm.value.critical
            ensures m in views && Initialized(views[m].systemType) in e
          {
            InPrefix(s'.events, e, Initialized(views[m].systemType));
          }
        }
      }
    }
  }

  lemma {:induction false} NoReadyWhenCountZero<T>(f: seq<Event<T>>)
    requires ReadyCount(f) == 0
    ensures forall p :: 0 <= p < |f| ==> !f[p].CriticalReady?
  {
    if f != [] {
      NoReadyWhenCountZero(f[..|f| - 1]);
      assert forall p :: 0 <= p < |f| - 1 ==> f[p] == f[..|f| - 1][p];
    }
  }

  lemma {:induction false} RunReadyAfterCriticals<N, T>(batches: seq<seq<N>>, views: map<N, NodeView<T>>, critical0: set<N>, cancel: seq<bool>, k: nat)
    requires k <= |batches| && Covers(batches, views)
    ensures StruckAfterInit(RunUpTo(batches, views, critical0, cancel, k), critical0, views)
    ensures ReadyAfterCriticals(RunUpTo(batches, views, critical0, cancel, k).events, critical0, views)
  {
    if k > 0 {
      RunReadyAfterCriticals(batches, views, critical0, cancel, k - 1);
      var s := RunUpTo(batches, views, critical0, cancel, k - 1);
      if s.status == Ok {
        var batch := batches[k - 1];
        assert InViews(batch, views);
        var b := BatchEvents(batch, views);
        var s1 := s.(events := s.events + b, fired := k);
        NoReadyWhenCountZero(b);
        ReadyAfterCriticalsGrow(s.events, b, critical0, views);
        forall m | m in critical0 && m !in s1.critical
          ensures m in views && Initialized(views[m].systemType) in s1.events
        {
          InPrefix(s.events, s1.events, Initialized(views[m].systemType));
        }
        if !CancelledAfter(cancel, k - 1) {
          forall j | 0 <= j < |batch|
            ensures Initialized(views[batch[j]].systemType) in s1.events
          {
            InPrefix(b, b, Initialized(views[batch[j]].systemType));
          }
          SweepReadyAfterCriticals(s1, batch, views, critical0);
        }
      }
    }
  }

  /** The "critical systems initialized" event is raised only after every
      system of the initial critical set has initialised. */
  lemma ReadyOnlyAfterCriticals<N, T>(batches: seq<seq<N>>, views: map<N, NodeView<T>>, critical0: set<N>, cancel: seq<bool>)
    requires Covers(batches, views)
    ensures var e := Run(batches, views, critical0, cancel).events;
      forall p, n :: 0 <= p < |e| && e[p].CriticalReady? && n in critical0 ==>
        n in views && Initialized(views[n].systemType) in e[..p]
  {
    RunReadyAfterCriticals(batches, views, critical0, cancel, |batches|);
  }

  /** The trace only grows. */
  lemma {:induction false} TraceGrows<N, T>(batches: seq<seq<N>>, views: map<N, NodeView<T>>, critical0: set<N>, cancel: seq<bool>, k: nat, j: nat)
    requires k <= j <= |batches| && Covers(batches, views)
    ensures RunUpTo(batches, views, critical0, cancel, k).events <= RunUpTo(batches, views, critical0, cancel, j).events
  {
    if k < j {
      TraceGrows(batches, views, critical0, cancel, k, j - 1);
    }
  }

  /** The critical set only shrinks from batch to batch. */
  lemma {:induction false} CriticalShrinks<N, T>(batches: seq<seq<N>>, views: map<N, NodeView<T>>, critical0: set<N>, cancel: seq<bool>, k: nat, j: nat)
    requires k <= j <= |batches| && Covers(batches, views)
    ensures RunUpTo(batches, views, critical0, cancel, j).critical <= RunUpTo(batches, views, critical0, cancel, k).critical
  {
    if k < j {
      CriticalShrinks(batches, views, critical0, cancel, k, j - 1);
    }
  }

  /** Every system of every batch that fired has initialised. */
  lemma {:induction false} FiredInitialized<N, T>(batches: seq<seq<N>>, views: map<N, NodeView<T>>, critical0: set<N>, cancel: seq<bool>, k: nat)
    requires k <= |batches| && Covers(batches, views)
    ensures var s := RunUpTo(batches, views, critical0, cancel, k);
      forall m, i :: 0 <= m < s.fired && 0 <= i < |batches[m]| ==> Initialized(views[batches[m][i]].systemType) in s.events
  {
    if k > 0 {
      FiredInitialized(batches, views, critical0, cancel, k - 1);
      var s := RunUpTo(batches, views, critical0, cancel, k - 1);
      if s.status == Ok {
        FiredStep(batches, views, critical0, cancel, k - 1);
      }
    }
  }

  lemma FiredStep<N, T>(batches: seq<seq<N>>, views: map<N, NodeView<T>>, critical0: set<N>, cancel: seq<bool>, k: nat)
    requires k < |batches| && Covers(batches, views)
    requires RunUpTo(batches, views, critical0, cancel, k).status == Ok
    requires var s := RunUpTo(batches, views, critical0, cancel, k);
      forall m, i :: 0 <= m < k && 0 <= i < |batches[m]| ==> Initialized(views[batches[m][i]].systemType) in s.events
    ensures var r := RunUpTo(batches, views, critical0, cancel, k + 1);
      forall m, i :: 0 <= m < r.fired && 0 <= i < |batches[m]| ==> Initialized(views[batches[m][i]].systemType) in r.events
  {
    var s := RunUpTo(batches, views, critical0, cancel, k);
    var r := RunUpTo(batches, views, critical0, cancel, k + 1);
    assert InViews(batches[k], views);
    var b := BatchEvents(batches[k], views);
    StepExtends(batches, views, critical0, cancel, k);
    assert r.fired == k + 1;
    CarryInitialized(batches, views, k, s.events, b, r.events);
  }

  lemma CarryInitialized<N, T>(batches: seq<seq<N>>, views: map<N, NodeView<T>>, k: nat, a: seq<Event<T>>, b: seq<Event<T>>, c: seq<Event<T>>)
    requires k < |batches| && Covers(batches, views)
    requires forall m, i :: 0 <= m < k && 0 <= i < |batches[m]| ==> Initialized(views[batches[m][i]].systemType) in a
    requires forall i :: 0 <= i < |batches[k]| ==> Initialized(views[batches[k][i]].systemType) in b
    requires a + b <= c
    ensures forall m, i :: 0 <= m < k + 1 && 0 <= i < |batches[m]| ==> Initialized(views[batches[m][i]].systemType) in c
  {
    forall m, i | 0 <= m < k + 1 && 0 <= i < |batches[m]|
      ensures Initialized(views[batches[m][i]].systemType) in c
    {
      var x := Initialized(views[batches[m][i]].systemType);
      assert x in a + b;
      InPrefix(a + b, c, x);
    }
  }

  /** When batch k fires, its events follow directly on the trace so far:
      together with `EarlierBatchesInitialized`, no node starts before every
      system of every earlier batch has initialised. */
  lemma BatchFollowsEarlierBatches<N, T>(batches: seq<seq<N>>, views: map<N, NodeView<T>>, critical0: set<N>, cancel: seq<bool>, k: nat)
    requires k < |batches| && Covers(batches, views)
    requires RunUpTo(batches, views, critical0, cancel, k).status == Ok
    ensures assert InViews(batches[k], views);
      RunUpTo(batches, views, critical0, cancel, k).events + BatchEvents(batches[k], views)
        <= Run(batches, views, critical0, cancel).events
  {
    StepExtends(batches, views, critical0, cancel, k);
    TraceGrows(batches, views, critical0, cancel, k + 1, |batches|);
    PrefixTransitive(
      RunUpTo(batches, views, critical0, cancel, k).events + BatchEvents(batches[k], views),
      RunUpTo(batches, views, critical0, cancel, k + 1).events,
      Run(batches, views, critical0, cancel).events);
  }

  lemma PrefixTransitive<X>(a: seq<X>, b: seq<X>, c: seq<X>)
    requires a <= b && b <= c
    ensures a <= c
  {
    assert c[..|a|] == b[..|a|];
  }

  /** Before batch k fires, every system of every earlier batch has initialised. */
  lemma EarlierBatchesInitialized<N, T>(batches: seq<seq<N>>, views: map<N, NodeView<T>>, critical0: set<N>, cancel: seq<bool>, k: nat)
    requires k <= |batches| && Covers(batches, views)
    requires RunUpTo(batches, views, critical0, cancel, k).status == Ok
    ensures var s := RunUpTo(batches, views, critical0, cancel, k);
      forall m, i :: 0 <= m < k && 0 <= i < |batches[m]| ==> Initialized(views[batches[m][i]].systemType) in s.events
  {
    FiredInitialized(batches, views, critical0, cancel, k);
  }

  /** A batch that fires appends its node events to the trace. */
  lemma StepExtends<N, T>(batches: seq<seq<N>>, views: map<N, NodeView<T>>, critical0: set<N>, cancel: seq<bool>, k: nat)
    requires k < |batches| && Covers(batches, views)
    requires RunUpTo(batches, views, critical0, cancel, k).status == Ok
    ensures assert InViews(batches[k], views);
      RunUpTo(batches, views, critical0, cancel, k).events + BatchEvents(batches[k], views)
        <= RunUpTo(batches, views, critical0, cancel, k + 1).events
  {
  }

  /** A batch fires exactly when the run has not stopped before it. */
  lemma FiredMeansReached<N, T>(batches: seq<seq<N>>, views: map<N, NodeView<T>>, critical0: set<N>, cancel: seq<bool>, m: nat)
    requires m < |batches| && Covers(batches, views)
    ensures m < Run(batches, views, critical0, cancel).fired <==> RunUpTo(batches, views, critical0, cancel, m).status == Ok
  {
    if RunUpTo(batches, views, critical0, cancel, m).status != Ok {
      StopIsFinal(batches, views, critical0, cancel, m, |batches|);
    } else {
      ReachedFires(batches, views, critical0, cancel, m);
    }
  }

  /** A batch reached while the run is going fires. */
  lemma ReachedFires<N, T>(batches: seq<seq<N>>, views: map<N, NodeView<T>>, critical0: set<N>, cancel: seq<bool>, m: nat)
    requires m < |batches| && Covers(batches, views)
    requires RunUpTo(batches, views, critical0, cancel, m).status == Ok
    ensures m < Run(batches, views, critical0, cancel).fired
  {
    StepFires(batches, views, critical0, cancel, m);
    RunMonotoneFired(batches, views, critical0, cancel, m + 1);
  }

  /** A batch reached while the run is going counts as fired, whatever follows. */
  lemma StepFires<N, T>(batches: seq<seq<N>>, views: map<N, NodeView<T>>, critical0: set<N>, cancel: seq<bool>, k: nat)
    requires k < |batches| && Covers(batches, views)
    requires RunUpTo(batches, views, critical0, cancel, k).status == Ok
    ensures RunUpTo(batches, views, critical0, cancel, k + 1).fired == k + 1
  {
    var s := RunUpTo(batches, views, critical0, cancel, k);
    assert InViews(batches[k], views);
    var s1 := s.(events := s.events + BatchEvents(batches[k], views), fired := k + 1);
    assert RunUpTo(batches, views, critical0, cancel, k + 1) ==
      if CancelledAfter(cancel, k) then s1.(status := Cancelled) else Sweep(s1, batches[k], views);
  }

  /** A run fires at least the batches any of its prefixes fired. */
  lemma {:induction false} RunMonotoneFired<N, T>(batches: seq<seq<N>>, views: map<N, NodeView<T>>, critical0: set<N>, cancel: seq<bool>, k: nat)
    requires k <= |batches| && Covers(batches, views)
    ensures RunUpTo(batches, views, critical0, cancel, k).fired <= Run(batches, views, critical0, cancel).fired
    decreases |batches| - k
  {
    if k < |batches| {
      RunMonotoneFired(batches, views, critical0, cancel, k + 1);
    }
  }

  /** Where node j of batch m begins in the trace of a run. */
  function Offset<N, T>(batches: seq<seq<N>>, views: map<N, NodeView<T>>, critical0: set<N>, cancel: seq<bool>, m: nat, j: nat): nat
    requires m < |batches| && j <= |batches[m]| && Covers(batches, views)
  {
    assert InViews(batches[m], views);
    |RunUpTo(batches, views, critical0, cancel, m).events| + Start(Fires(batches[m], views), j)
  }

  /** Every node of a batch that fired appears in the trace as one unbroken
      block: each start callback in registration order with the node's own
      type, then its system's initialisation, then each complete callback in
      registration order with the node's own type. */
  lemma NodeFiresInPlace<N, T>(batches: seq<seq<N>>, views: map<N, NodeView<T>>, critical0: set<N>, cancel: seq<bool>, m: nat, j: nat)
    requires Covers(batches, views) && m < |batches| && j < |batches[m]|
    requires m < Run(batches, views, critical0, cancel).fired
    ensures var e := Run(batches, views, critical0, cancel).events;
      var v := views[batches[m][j]];
      var o := Offset(batches, views, critical0, cancel, m, j);
      && o + |Fire(v)| <= |e| && e[o..o + |Fire(v)|] == Fire(v)
      && (forall k :: 0 <= k < |v.onStarted| ==> e[o + k] == Started(v.onStarted[k], v.systemType))
      && e[o + |v.onStarted|] == Initialized(v.systemType)
      && (forall k :: 0 <= k < |v.onCompleted| ==> e[o + |v.onStarted| + 1 + k] == Completed(v.onCompleted[k], v.systemType))
  {
    var e := Run(batches, views, critical0, cancel).events;
    var v := views[batches[m][j]];
    var o := Offset(batches, views, critical0, cancel, m, j);
    BlockInTrace(batches, views, critical0, cancel, m, j);
    assert InViews(batches[m], views);
    FiresAt(batches[m], views, j);
    FireLayout(v, e, o);
  }

  /** Node j's block of batch m sits in a run's trace at its offset. */
  lemma BlockInTrace<N, T>(batches: seq<seq<N>>, views: map<N, NodeView<T>>, critical0: set<N>, cancel: seq<bool>, m: nat, j: nat)
    requires Covers(batches, views) && m < |batches| && j < |batches[m]|
    requires m < Run(batches, views, critical0, cancel).fired
    ensures assert InViews(batches[m], views);
      var e := Run(batches, views, critical0, cancel).events;
      var f := Fires(batches[m], views)[j];
      var o := Offset(batches, views, critical0, cancel, m, j);
      SitsAt(e, o, f)
  {
    FiredMeansReached(batches, views, critical0, cancel, m);
    BatchFollowsEarlierBatches(batches, views, critical0, cancel, m);
    assert InViews(batches[m], views);
    BlockInBatch(batches[m], views, j, RunUpTo(batches, views, critical0, cancel, m).events,
                 Run(batches, views, critical0, cancel).events, Offset(batches, views, critical0, cancel, m, j));
  }

  /** Within a batch's own events, node j's trace sits right after the traces
      of the nodes before it in the batch. */
  lemma NodeBlockInBatch<N, T>(batch: seq<N>, views: map<N, NodeView<T>>, j: nat)
    requires InViews(batch, views) && j < |batch|
    ensures SitsAt(BatchEvents(batch, views), Start(Fires(batch, views), j), Fire(views[batch[j]]))
  {
    BatchEventsBlocks(batch, views);
    FlattenBlock(Fires(batch, views), j);
    FiresAt(batch, views, j);
  }

  /** Once a batch's events follow a trace `before` inside a trace `e`, node
      j's block sits in `e` at its offset after `before`. */
  lemma BlockInBatch<N, T>(batch: seq<N>, views: map<N, NodeView<T>>, j: nat, before: seq<Event<T>>, e: seq<Event<T>>, o: nat)
    requires InViews(batch, views) && j < |batch|
    requires before + BatchEvents(batch, views) <= e
    requires o == |before| + Start(Fires(batch, views), j)
    ensures SitsAt(e, o, Fires(batch, views)[j])
  {
    BatchEventsBlocks(batch, views);
    BlockInConcat(e, before, Fires(batch, views), j);
  }

  /** Block j of a concatenation that follows `before` inside `e` sits in `e`
      at its start offset after `before`. */
  lemma BlockInConcat<X>(e: seq<X>, before: seq<X>, bs: seq<seq<X>>, j: nat)
    requires j < |bs| && before + Flatten(bs) <= e
    ensures SitsAt(e, |before| + Start(bs, j), bs[j])
  {
    FlattenBlock(bs, j);
    PlaceInTrace(e, before, Flatten(bs), Start(bs, j), bs[j]);
  }

  /** Once a batch's events follow a trace `before` inside a trace `after`,
      node j's block ends within `after`. */
  lemma BlockEndsWithin<N, T>(batch: seq<N>, views: map<N, NodeView<T>>, j: nat, before: seq<Event<T>>, after: seq<Event<T>>)
    requires InViews(batch, views) && j < |batch|
    requires before + BatchEvents(batch, views) <= after
    ensures |before| + Start(Fires(batch, views), j) + |Fire(views[batch[j]])| <= |after|
  {
    var bs := Fires(batch, views);
    BatchEventsBlocks(batch, views);
    FlattenLength(bs);
    StartGrows(bs, j + 1, |bs|);
    FiresAt(batch, views, j);
  }

  /** A block of a batch's events keeps its place once the batch's events
      follow the earlier trace inside a longer trace. */
  lemma PlaceInTrace<X>(e: seq<X>, before: seq<X>, b: seq<X>, a: nat, f: seq<X>)
    requires before + b <= e
    requires SitsAt(b, a, f)
    ensures SitsAt(e, |before| + a, f)
  {
    assert e[|before| + a..|before| + a + |f|] == (before + b)[|before| + a..|before| + a + |f|];
  }

  /** Where a node's events sit in a trace, its callbacks and its system's
      initialisation sit at the matching positions. */
  lemma FireLayout<T>(v: NodeView<T>, e: seq<Event<T>>, o: nat)
    requires SitsAt(e, o, Fire(v))
    ensures forall k :: 0 <= k < |v.onStarted| ==> e[o + k] == Started(v.onStarted[k], v.systemType)
    ensures e[o + |v.onStarted|] == Initialized(v.systemType)
    ensures forall k :: 0 <= k < |v.onCompleted| ==> e[o + |v.onStarted| + 1 + k] == Completed(v.onCompleted[k], v.systemType)
  {
    var f := Fire(v);
    forall k | 0 <= k < |f|
      ensures e[o + k] == f[k]
    {
      assert e[o..o + |f|][k] == f[k];
    }
  }

  /** Blocks follow batch order, and within a batch they follow the batch:
      a node's complete callbacks fire before any event of a node later in
      the plan, in particular before anything of a later batch starts. */
  lemma BlocksInOrder<N, T>(batches: seq<seq<N>>, views: map<N, NodeView<T>>, critical0: set<N>, cancel: seq<bool>,
                            m: nat, j: nat, m': nat, j': nat)
    requires Covers(batches, views) && m < |batches| && j < |batches[m]| && m' < |batches| && j' <= |batches[m']|
    requires m < Run(batches, views, critical0, cancel).fired
    requires m < m' || (m == m' && j < j')
    ensures Offset(batches, views, critical0, cancel, m, j) + |Fire(views[batches[m][j]])| <= Offset(batches, views, critical0, cancel, m', j')
  {
    assert InViews(batches[m], views) && InViews(batches[m'], views);
    if m == m' {
      var bs := Fires(batches[m], views);
      FiresAt(batches[m], views, j);
      StartGrows(bs, j + 1, j');
    } else {
      FiredMeansReached(batches, views, critical0, cancel, m);
      StepExtends(batches, views, critical0, cancel, m);
      TraceGrows(batches, views, critical0, cancel, m + 1, m');
      BlockEndsWithin(batches[m], views, j, RunUpTo(batches, views, critical0, cancel, m).events,
                      RunUpTo(batches, views, critical0, cancel, m + 1).events);
    }
  }

  /** The nodes of a batch flagged critical. */
  function Flagged<N, T>(batch: seq<N>, views: map<N, NodeView<T>>): set<N>
    requires InViews(batch, views)
  {
    set j | 0 <= j < |batch| && views[batch[j]].critical :: batch[j]
  }

  /** The nodes of the first k batches flagged critical. */
  function FlaggedUpTo<N, T>(batches: seq<seq<N>>, views: map<N, NodeView<T>>, k: nat): set<N>
    requires k <= |batches| && Covers(batches, views)
  {
    set m, j | 0 <= m < k && 0 <= j < |batches[m]| && views[batches[m][j]].critical :: batches[m][j]
  }

  lemma {:induction false} SweepClean<N, T>(s: RunState<N, T>, batch: seq<N>, views: map<N, NodeView<T>>)
    requires InViews(batch, views) && NoDup(batch)
    requires s.status == Ok && Flagged(batch, views) <= s.critical
    ensures Sweep(s, batch, views).status == Ok
    ensures Sweep(s, batch, views).critical == s.critical - Flagged(batch, views)
  {
    if batch == [] {
      assert Flagged(batch, views) == {};
    } else {
      var init := batch[..|batch| - 1];
      var n := batch[|batch| - 1];
      assert InViews(init, views);
      assert forall j :: 0 <= j < |init| ==> init[j] == batch[j];
      assert Flagged(init, views) <= Flagged(batch, views);
      SweepClean(s, init, views);
      assert n !in Flagged(init, views);
      assert Flagged(batch, views) == Flagged(init, views) + (if views[n].critical then {n} else {});
    }
  }

  lemma FlaggedStep<N, T>(batches: seq<seq<N>>, views: map<N, NodeView<T>>, k: nat)
    requires k < |batches| && Covers(batches, views)
    ensures assert InViews(batches[k], views);
      FlaggedUpTo(batches, views, k + 1) == FlaggedUpTo(batches, views, k) + Flagged(batches[k], views)
  {
    assert InViews(batches[k], views);
    forall x | x in Flagged(batches[k], views)
      ensures x in FlaggedUpTo(batches, views, k + 1)
    {
      var j :| 0 <= j < |batches[k]| && views[batches[k][j]].critical && x == batches[k][j];
    }
  }

  lemma FlaggedAcrossBatches<N, T>(batches: seq<seq<N>>, views: map<N, NodeView<T>>, k: nat)
    requires k < |batches| && Covers(batches, views) && Distinct(batches)
    ensures assert InViews(batches[k], views);
      Flagged(batches[k], views) !! FlaggedUpTo(batches, views, k)
  {
    assert InViews(batches[k], views);
    forall x | x in Flagged(batches[k], views)
      ensures x !in FlaggedUpTo(batches, views, k)
    {
      var j :| 0 <= j < |batches[k]| && views[batches[k][j]].critical && x == batches[k][j];
      assert forall m, i :: 0 <= m < k && 0 <= i < |batches[m]| ==> batches[m][i] != batches[k][j];
    }
  }

  lemma {:induction false} PlannedRunUpTo<N, T>(batches: seq<seq<N>>, views: map<N, NodeView<T>>, critical0: set<N>, cancel: seq<bool>, k: nat)
    requires k <= |batches| && Covers(batches, views) && Distinct(batches)
    requires critical0 == FlaggedUpTo(batches, views, |batches|)
    ensures var s := RunUpTo(batches, views, critical0, cancel, k);
      s.status != Faulted && (s.status == Ok ==> s.critical == critical0 - FlaggedUpTo(batches, views, k))
  {
    if k == 0 {
      assert FlaggedUpTo(batches, views, 0) == {};
    } else {
      PlannedRunUpTo(batches, views, critical0, cancel, k - 1);
      var s := RunUpTo(batches, views, critical0, cancel, k - 1);
      if s.status == Ok {
        assert NoDup(batches[k - 1]);
        FlaggedStep(batches, views, k - 1);
        FlaggedAcrossBatches(batches, views, k - 1);
        FlaggedGrows(batches, views, k, |batches|);
        RunStep(batches, views, critical0, cancel, k - 1, s.events, s.critical);
        assert InViews(batches[k - 1], views);
        var s1 := RunState(s.events + BatchEvents(batches[k - 1], views), s.critical, Ok, k);
        PlannedSweep(s1, batches[k - 1], views, critical0, FlaggedUpTo(batches, views, k - 1), FlaggedUpTo(batches, views, k));
      }
    }
  }

  /** One removal pass of a planned run strikes exactly the batch's flagged
      nodes out of what is left. */
  lemma PlannedSweep<N, T>(s1: RunState<N, T>, batch: seq<N>, views: map<N, NodeView<T>>,
                           critical0: set<N>, done: set<N>, next: set<N>)
    requires InViews(batch, views) && NoDup(batch)
    requires s1.status == Ok && s1.critical == critical0 - done
    requires next == done + Flagged(batch, views) && Flagged(batch, views) !! done && next <= critical0
    ensures Sweep(s1, batch, views).status == Ok && Sweep(s1, batch, views).critical == critical0 - next
  {
    SweepClean(s1, batch, views);
  }

  lemma FlaggedGrows<N, T>(batches: seq<seq<N>>, views: map<N, NodeView<T>>, k: nat, j: nat)
    requires k <= j <= |batches| && Covers(batches, views)
    ensures FlaggedUpTo(batches, views, k) <= FlaggedUpTo(batches, views, j)
  {
  }

  /** A run whose critical set is exactly the flagged nodes of its batches,
      no node occurring twice, never faults; unless cancelled it empties the
      critical set, raising the event exactly once when there was a critical
      node and never otherwise. */
  lemma PlannedRunCompletes<N, T>(batches: seq<seq<N>>, views: map<N, NodeView<T>>, critical0: set<N>, cancel: seq<bool>)
    requires Covers(batches, views) && Distinct(batches)
    requires critical0 == FlaggedUpTo(batches, views, |batches|)
    ensures var r := Run(batches, views, critical0, cancel);
      && r.status != Faulted
      && (r.status == Ok ==> r.critical == {} && ReadyCount(r.events) == if critical0 != {} then 1 else 0)
  {
    PlannedRunUpTo(batches, views, critical0, cancel, |batches|);
    ReadyFiresOnce(batches, views, critical0, cancel, |batches|);
  }
}
