/** Shared vocabulary of the startup scheduler model: failure-carrying wrappers,
    the error kinds the scheduler raises, the observable event trace, and a few
    facts about counting in sequences. */
module Common {

  datatype Option<+T> = None | Some(value: T)

  datatype Result<+R, +E> = Success(value: R) | Failure(error: E)

  datatype Outcome<+E> = Pass | Fail(error: E)

  /** The exceptions the scheduler throws, reduced to their kind and the
      system types they name. */
  datatype Error<T> =
    | Unresolved(system: T, dependency: T)   // a declared dependency matches no registered system
    | Cyclic(systems: set<T>)                // systems whose in-degree never reached zero
    | Processed                              // the node was already validated
    | NotInitializable(dependency: T)        // a dependency type that is not an initializable system
    | Duplicate(system: T)                   // a second system of an already registered type

  /** Callbacks are opaque; they are told apart by an id. */
  type CallbackId = nat

  /** What an observer of a run sees, in order. */
  datatype Event<T> =
    | Started(callback: CallbackId, system: T)    // a start callback invoked with the node's type
    | Initialized(system: T)                      // the wrapped system's own initialisation
    | Completed(callback: CallbackId, system: T)  // a complete callback invoked with the node's type
    | CriticalReady                               // the "critical systems initialized" event

  /** The event concerns system type `t`. */
  predicate About<T(==)>(e: Event<T>, t: T) {
    !e.CriticalReady? && e.system == t
  }

  predicate NoDup<X(==)>(s: seq<X>) {
    forall i, j :: 0 <= i < j < |s| ==> s[i] != s[j]
  }

  /** No entry occurs twice across the batches. */
  predicate Distinct<N(==)>(batches: seq<seq<N>>) {
    forall m1, i1, m2, i2 ::
      (0 <= m1 < |batches| && 0 <= i1 < |batches[m1]| && 0 <= m2 < |batches| && 0 <= i2 < |batches[m2]|
       && batches[m1][i1] == batches[m2][i2]) ==> m1 == m2 && i1 == i2
  }

  function Elems<X>(s: seq<X>): set<X> {
    set x | x in s
  }

  lemma ElemsConcat<X>(a: seq<X>, b: seq<X>)
    ensures Elems(a + b) == Elems(a) + Elems(b)
  {
    assert forall x :: x in a + b <==> x in a || x in b;
  }

  lemma PrefixOfTail<X>(s: seq<X>, k: nat)
    requires k < |s|
    ensures s[..k + 1] == [s[0]] + s[1..][..k]
  {
  }

  /** Number of occurrences of `x` in `s`. */
  function Count(s: seq<nat>, x: nat): nat {
    if s == [] then 0 else Count(s[..|s| - 1], x) + (if s[|s| - 1] == x then 1 else 0)
  }

  /** Number of entries of `p` that are not yet in `done`. */
  function Pending(p: seq<nat>, done: set<nat>): nat {
    if p == [] then 0 else Pending(p[..|p| - 1], done) + (if p[|p| - 1] in done then 0 else 1)
  }

  lemma CountSnoc(s: seq<nat>, a: nat, x: nat)
    ensures Count(s + [a], x) == Count(s, x) + (if a == x then 1 else 0)
  {
    assert (s + [a])[..|s|] == s;
  }

  lemma {:induction false} CountPrefix(s: seq<nat>, m: nat, x: nat)
    requires m <= |s|
    ensures Count(s[..m], x) <= Count(s, x)
  {
    if m < |s| {
      var s' := s[..|s| - 1];
      assert s'[..m] == s[..m];
      CountPrefix(s', m, x);
    } else {
      assert s[..m] == s;
    }
  }

  lemma {:induction false} PendingZero(p: seq<nat>, done: set<nat>)
    ensures Pending(p, done) == 0 <==> forall q :: q in p ==> q in done
  {
    if p != [] {
      var p' := p[..|p| - 1];
      PendingZero(p', done);
      assert p == p' + [p[|p| - 1]];
    }
  }

  /** Draining one more node lowers the pending count by the number of
      entries that name it. */
  lemma {:induction false} PendingDrain(p: seq<nat>, done: set<nat>, x: nat)
    requires x !in done
    ensures Pending(p, done + {x}) + Count(p, x) == Pending(p, done)
  {
    if p != [] {
      PendingDrain(p[..|p| - 1], done, x);
    }
  }

  lemma {:induction false} PendingAll(p: seq<nat>)
    ensures Pending(p, {}) == |p|
  {
    if p != [] {
      PendingAll(p[..|p| - 1]);
    }
  }

  lemma NoDupConcat<X>(a: seq<X>, b: seq<X>)
    requires NoDup(a) && NoDup(b)
    requires forall x :: x in b ==> x !in a
    ensures NoDup(a + b)
  {
    forall i, j | 0 <= i < j < |a + b|
      ensures (a + b)[i] != (a + b)[j]
    {
      if j >= |a| && i < |a| {
        assert (a + b)[j] in b;
      }
    }
  }
}
