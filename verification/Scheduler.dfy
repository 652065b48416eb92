/** Bounded-concurrency workers over a shared counter: `runDetectorsBounded`
    (packages/scanner/src/index.ts) and `runWithBoundedConcurrency`
    (packages/scanner/src/inspection-pipeline.ts), as small steps.  Between two awaits the
    JavaScript code is atomic, so a step is one claim (abort test and `next++`) or one
    completed run; any interleaving of the workers' steps is allowed. */
module Scheduler {
  import opened Options

  /** What differs between the two schedulers.  `run(i)` is what item `i` produces, nothing
      when it throws.  The detector scheduler re-tests the abort signal after each run; the
      pipeline records a fallback output for a throwing producer and tests the signal once
      more after all workers are through. */
  datatype Config<!R> = Config(
    items: nat,
    limit: nat,
    run: nat -> Option<R>,
    fallback: Option<R>,
    recheckAfterRun: bool,
    recheckAtEnd: bool)
  {
    function Workers(): nat {
      if limit < items then limit else items
    }

    /** What the sequential program computes for item `i`. */
    function Outcome(i: nat): Option<R> {
      if run(i).Some? then run(i) else fallback
    }
  }

  datatype Worker = Ready | Running(index: nat) | Done | Failed

  datatype State<R> = State(next: nat, workers: seq<Worker>, results: seq<Option<R>>, aborted: bool)

  datatype Action = Claim(worker: nat) | Finish(worker: nat) | Abort

  function Init<R>(c: Config<R>): State<R> {
    State(0, seq(c.Workers(), i => Ready), seq(c.items, i => None), false)
  }

  predicate Enabled<R>(s: State<R>, a: Action) {
    match a
    case Claim(w) => w < |s.workers| && s.workers[w] == Ready
    case Finish(w) => w < |s.workers| && s.workers[w].Running? && s.workers[w].index < |s.results|
    case Abort => !s.aborted
  }

  function Step<R>(c: Config<R>, s: State<R>, a: Action): State<R>
    requires Enabled(s, a)
  {
    match a
    case Claim(w) =>
      if s.aborted then s.(workers := s.workers[w := Failed])
      else if s.next >= c.items then s.(next := s.next + 1, workers := s.workers[w := Done])
      else s.(next := s.next + 1, workers := s.workers[w := Running(s.next)])
    case Finish(w) =>
      var i := s.workers[w].index;
      if c.run(i).Some? && !(c.recheckAfterRun && s.aborted) then
        s.(workers := s.workers[w := Ready], results := s.results[i := c.run(i)])
      else if c.run(i).None? && c.fallback.Some? && !s.aborted then
        s.(workers := s.workers[w := Ready], results := s.results[i := c.fallback])
      else s.(workers := s.workers[w := Failed])
    case Abort => s.(aborted := true)
  }

  /** The state an interleaving leads to, if every action is enabled in its turn. */
  function Play<R>(c: Config<R>, actions: seq<Action>): Option<State<R>>
    decreases |actions|
  {
    if actions == [] then Some(Init(c))
    else
      var before := Play(c, actions[..|actions| - 1]);
      var a := actions[|actions| - 1];
      if before.Some? && Enabled(before.value, a) then Some(Step(c, before.value, a)) else None
  }

  predicate AllDone<R>(s: State<R>) {
    forall w :: 0 <= w < |s.workers| ==> s.workers[w] == Done
  }

  predicate SomeFailed<R>(s: State<R>) {
    exists w :: 0 <= w < |s.workers| && s.workers[w] == Failed
  }

  /** `Promise.all` over the workers: results only when every worker returned. */
  function Output<R>(c: Config<R>, s: State<R>): Option<seq<Option<R>>> {
    if AllDone(s) && !(c.recheckAtEnd && s.aborted) then Some(s.results) else None
  }

  /** The sequential map, in index order. */
  function Sequential<R>(c: Config<R>): (r: seq<Option<R>>)
    ensures |r| == c.items && forall i :: 0 <= i < c.items ==> r[i] == c.Outcome(i)
  {
    seq(c.items, i requires 0 <= i < c.items => c.Outcome(i))
  }

  // ---------------------------------------------------------------------
  // The invariant
  // ---------------------------------------------------------------------

  ghost predicate BeingRun<R>(s: State<R>, i: nat) {
    exists w :: 0 <= w < |s.workers| && s.workers[w] == Running(i)
  }

  /** Every claimed index has its result, is being run, or was lost to a failed worker. */
  ghost predicate Accounted<R>(c: Config<R>, s: State<R>) {
    forall i :: 0 <= i < |s.results| && i < s.next ==> s.results[i].Some? || BeingRun(s, i) || SomeFailed(s)
  }

  ghost predicate Inv<R>(c: Config<R>, s: State<R>) {
    && |s.workers| == c.Workers() && |s.results| == c.items
    && (forall w :: 0 <= w < |s.workers| && s.workers[w].Running? ==>
          s.workers[w].index < s.next && s.workers[w].index < c.items && s.results[s.workers[w].index] == None)
    && (forall v, w :: 0 <= v < w < |s.workers| && s.workers[v].Running? ==> s.workers[v] != s.workers[w])
    && (forall i :: 0 <= i < c.items && s.results[i].Some? ==> i < s.next && s.results[i] == c.Outcome(i))
    && Accounted(c, s)
    && (forall w :: 0 <= w < |s.workers| && s.workers[w] == Done ==> s.next >= c.items)
  }

  lemma InitInv<R>(c: Config<R>)
    ensures Inv(c, Init(c))
  {
  }

  lemma StepAccounted<R>(c: Config<R>, s: State<R>, a: Action)
    requires |s.results| == c.items && Accounted(c, s) && Enabled(s, a)
    ensures Accounted(c, Step(c, s, a))
  {
    var t := Step(c, s, a);
    assert forall w :: 0 <= w < |s.workers| && (a.Abort? || w != a.worker) ==> t.workers[w] == s.workers[w];
    forall i | 0 <= i < |t.results| && i < t.next ensures t.results[i].Some? || BeingRun(t, i) || SomeFailed(t) {
      if SomeFailed(s) {
        var f :| 0 <= f < |s.workers| && s.workers[f] == Failed;
        assert t.workers[f] == Failed;
      } else if i == s.next {
        assert t.workers[a.worker] == Running(i);
      } else if BeingRun(s, i) {
        var v :| 0 <= v < |s.workers| && s.workers[v] == Running(i);
        assert t.workers[v] == Running(i) || t.workers[v] == Failed || t.results[i].Some?;
      }
    }
  }

  lemma StepInv<R>(c: Config<R>, s: State<R>, a: Action)
    requires Inv(c, s) && Enabled(s, a)
    ensures Inv(c, Step(c, s, a))
  {
    StepAccounted(c, s, a);
    var t := Step(c, s, a);
    assert forall w :: 0 <= w < |s.workers| && (a.Abort? || w != a.worker) ==> t.workers[w] == s.workers[w];
  }

  lemma {:induction false} PlayInv<R>(c: Config<R>, actions: seq<Action>)
    ensures Play(c, actions).Some? ==> Inv(c, Play(c, actions).value)
    decreases |actions|
  {
    if actions == [] {
      InitInv(c);
    } else {
      PlayInv(c, actions[..|actions| - 1]);
      var before := Play(c, actions[..|actions| - 1]);
      var a := actions[|actions| - 1];
      if before.Some? && Enabled(before.value, a) { StepInv(c, before.value, a); }
    }
  }

  // ---------------------------------------------------------------------
  // Refinement of the sequential map
  // ---------------------------------------------------------------------

  /** Every interleaving that returns at all returns the sequential map, in index order, with
      every slot filled. */
  lemma RefinesSequentialMap<R>(c: Config<R>, actions: seq<Action>)
    requires c.limit >= 1
    requires Play(c, actions).Some? && Output(c, Play(c, actions).value).Some?
    ensures Output(c, Play(c, actions).value) == Some(Sequential(c))
    ensures forall i :: 0 <= i < c.items ==> c.Outcome(i).Some?
  {
    PlayInv(c, actions);
    var s := Play(c, actions).value;
    if c.items > 0 {
      assert s.workers[0] == Done;
    }
    forall i | 0 <= i < c.items ensures s.results[i] == c.Outcome(i) && s.results[i].Some? {
      assert !BeingRun(s, i) && !SomeFailed(s);
    }
    assert s.results == Sequential(c);
  }

  /** `results.flat()` over the values of a full result list. */
  function Flat<T>(results: seq<Option<seq<T>>>): seq<T> {
    if results == [] then []
    else (if results[0].Some? then results[0].value else []) + Flat(results[1..])
  }

  /** The detector scheduler (no fallback) returns the concatenation of the detectors' results
      in registration order, whatever order they finish in. */
  lemma DetectorsInOrder<T>(c: Config<seq<T>>, actions: seq<Action>)
    requires c.limit >= 1 && c.fallback == None
    requires Play(c, actions).Some? && Output(c, Play(c, actions).value).Some?
    ensures Flat(Output(c, Play(c, actions).value).value) == Flat(seq(c.items, i requires 0 <= i < c.items => c.run(i)))
  {
    RefinesSequentialMap(c, actions);
    assert Sequential(c) == seq(c.items, i requires 0 <= i < c.items => c.run(i));
  }

  /** A run in which some worker threw (it saw the abort, or its item threw) never returns a
      result, however it continues. */
  lemma {:induction false} FailureIsFinal<R>(c: Config<R>, actions: seq<Action>, more: seq<Action>)
    requires Play(c, actions).Some? && SomeFailed(Play(c, actions).value)
    ensures Play(c, actions + more).Some? ==>
              SomeFailed(Play(c, actions + more).value) && Output(c, Play(c, actions + more).value) == None
    decreases |more|
  {
    if more == [] {
      assert actions + more == actions;
    } else {
      var n := |more| - 1;
      var all, before := actions + more, actions + more[..n];
      FailureIsFinal(c, actions, more[..n]);
      assert all[..|all| - 1] == before && all[|all| - 1] == more[n];
      if Play(c, before).Some? { FailedStays(c, Play(c, before).value, more[n]); }
    }
  }

  lemma FailedStays<R>(c: Config<R>, s: State<R>, a: Action)
    requires SomeFailed(s)
    ensures Enabled(s, a) ==> SomeFailed(Step(c, s, a)) && Output(c, Step(c, s, a)) == None
    ensures Output(c, s) == None
  {
    var f :| 0 <= f < |s.workers| && s.workers[f] == Failed;
    if Enabled(s, a) {
      assert Step(c, s, a).workers[f] == Failed;
    }
  }

  /** When a run of item `i` ends, its worker fails exactly when the item has neither a result nor a
      fallback, or after the abort unless a result is there and the abort is not tested again;
      otherwise the item gets its result, or its fallback, and the worker goes on. */
  lemma FinishOutcome<R>(c: Config<R>, s: State<R>, w: nat)
    requires Enabled(s, Finish(w))
    ensures var i, t := s.workers[w].index, Step(c, s, Finish(w));
            var lost := c.Outcome(i) == None || (s.aborted && (c.recheckAfterRun || c.run(i) == None));
            && t.workers == s.workers[w := if lost then Failed else Ready]
            && t.results == if lost then s.results else s.results[i := c.Outcome(i)]
  {
  }

  /** One step: a worker that reaches its abort test after the abort throws. */
  lemma ObservedAbortFails<R>(c: Config<R>, s: State<R>, w: nat)
    requires s.aborted
    ensures Enabled(s, Claim(w)) ==> SomeFailed(Step(c, s, Claim(w)))
    ensures c.recheckAfterRun && Enabled(s, Finish(w)) ==> SomeFailed(Step(c, s, Finish(w)))
  {
    if Enabled(s, Claim(w)) { assert Step(c, s, Claim(w)).workers[w] == Failed; }
    if c.recheckAfterRun && Enabled(s, Finish(w)) { assert Step(c, s, Finish(w)).workers[w] == Failed; }
  }

  /** The same workers are done. */
  ghost predicate SameDone<R>(s: State<R>, t: State<R>) {
    |s.workers| == |t.workers| && forall w :: 0 <= w < |s.workers| ==> (s.workers[w] == Done <==> t.workers[w] == Done)
  }

  /** After the abort no worker gets done any more: the only way there is through a claim, and
      the claim meets the abort test. */
  lemma AbortedStep<R>(c: Config<R>, s: State<R>, a: Action)
    requires Enabled(s, a) && s.aborted
    ensures Step(c, s, a).aborted && SameDone(s, Step(c, s, a))
  {
  }

  lemma {:induction false} AbortedRun<R>(c: Config<R>, before: seq<Action>, more: seq<Action>)
    requires Play(c, before + [Abort] + more).Some?
    ensures Play(c, before).Some?
    ensures Play(c, before + [Abort] + more).value.aborted
    ensures SameDone(Play(c, before).value, Play(c, before + [Abort] + more).value)
    decreases |more|
  {
    var all := before + [Abort] + more;
    if more == [] {
      assert all[..|all| - 1] == before && all[|all| - 1] == Abort;
    } else {
      var n := |more| - 1;
      var shorter := before + [Abort] + more[..n];
      assert all[..|all| - 1] == shorter && all[|all| - 1] == more[n];
      AbortedRun(c, before, more[..n]);
      AbortedStep(c, Play(c, shorter).value, more[n]);
    }
  }

  /** No step is possible once all workers are done and the abort has happened. */
  lemma NothingFollows<R>(c: Config<R>, before: seq<Action>, more: seq<Action>)
    requires Play(c, before + [Abort] + more).Some? && more != []
    ensures Play(c, before).Some? && !AllDone(Play(c, before).value)
  {
    var n := |more| - 1;
    var all, shorter := before + [Abort] + more, before + [Abort] + more[..n];
    assert all[..|all| - 1] == shorter && all[|all| - 1] == more[n];
    AbortedRun(c, before, more[..n]);
    assert Enabled(Play(c, shorter).value, more[n]);
  }

  /** An abort and the result of the whole run, for both schedulers and every interleaving: the
      run returns exactly when every worker had already returned at the moment of the abort and
      the scheduler does not look at the signal once more at the end; and then nothing follows the
      abort. */
  lemma AbortedRunReturnsIff<R>(c: Config<R>, before: seq<Action>, more: seq<Action>)
    requires Play(c, before + [Abort] + more).Some?
    ensures Play(c, before).Some?
    ensures Output(c, Play(c, before + [Abort] + more).value).Some? <==>
              !c.recheckAtEnd && AllDone(Play(c, before).value)
    ensures AllDone(Play(c, before).value) ==> more == []
  {
    AbortedRun(c, before, more);
    if AllDone(Play(c, before).value) && more != [] { NothingFollows(c, before, more); }
    var s, t := Play(c, before).value, Play(c, before + [Abort] + more).value;
    if AllDone(t) {
      forall w | 0 <= w < |s.workers| ensures s.workers[w] == Done {
        assert t.workers[w] == Done;
      }
    }
    if AllDone(s) {
      forall w | 0 <= w < |t.workers| ensures t.workers[w] == Done {
        assert s.workers[w] == Done;
      }
    }
  }

  /** The scheduler that looks at the signal at the end never returns from a run with an abort
      anywhere in it. */
  lemma AbortMeansNoResult<R>(c: Config<R>, actions: seq<Action>, k: nat)
    requires c.recheckAtEnd && Play(c, actions).Some? && k < |actions| && actions[k] == Abort
    ensures Output(c, Play(c, actions).value) == None
  {
    assert actions == actions[..k] + [Abort] + actions[k + 1..];
    AbortedRunReturnsIff(c, actions[..k], actions[k + 1..]);
  }

  // ---------------------------------------------------------------------
  // Claims and writes
  // ---------------------------------------------------------------------

  datatype Event = Claimed(worker: nat, index: nat) | Wrote(worker: nat, index: nat)

  function EventsOf<R>(c: Config<R>, s: State<R>, a: Action): seq<Event>
    requires Enabled(s, a)
  {
    var t := Step(c, s, a);
    match a
    case Claim(w) => if t.workers[w].Running? then [Claimed(w, t.workers[w].index)] else []
    case Finish(w) => if t.workers[w] == Ready then [Wrote(w, s.workers[w].index)] else []
    case Abort => []
  }

  /** The claims and slot writes of an interleaving, in the order they happen. */
  function Log<R>(c: Config<R>, actions: seq<Action>): seq<Event>
    requires Play(c, actions).Some?
    decreases |actions|
  {
    if actions == [] then []
    else
      Log(c, actions[..|actions| - 1])
      + EventsOf(c, Play(c, actions[..|actions| - 1]).value, actions[|actions| - 1])
  }

  function ClaimedIndices(log: seq<Event>): seq<nat> {
    if log == [] then []
    else
      var last := log[|log| - 1];
      ClaimedIndices(log[..|log| - 1]) + if last.Claimed? then [last.index] else []
  }

  function UpTo(n: nat): (r: seq<nat>)
    ensures |r| == n && forall i :: 0 <= i < n ==> r[i] == i
  {
    seq(n, i => i)
  }

  /** The claims of a log are 0, 1, 2, ... up to the counter; a running worker claimed what it
      runs; a write belongs to the worker that claimed the slot, and no slot is written twice. */
  ghost predicate LogInv<R>(c: Config<R>, s: State<R>, log: seq<Event>) {
    && ClaimedIndices(log) == UpTo(if s.next < c.items then s.next else c.items)
    && (forall w: nat, i: nat :: Wrote(w, i) in log ==> Claimed(w, i) in log && i < |s.results| && s.results[i].Some?)
    && (forall w: nat :: w < |s.workers| && s.workers[w].Running? ==> Claimed(w, s.workers[w].index) in log)
    && WrittenOnce(log)
  }

  ghost predicate WrittenOnce(log: seq<Event>) {
    forall x, y :: 0 <= x < y < |log| && log[x].Wrote? && log[y].Wrote? ==> log[x].index != log[y].index
  }

  lemma OneMoreWrite(log: seq<Event>, e: Event)
    requires WrittenOnce(log) && e.Wrote? && forall w: nat :: Wrote(w, e.index) !in log
    ensures WrittenOnce(log + [e]) && ClaimedIndices(log + [e]) == ClaimedIndices(log)
  {
    assert (log + [e])[..|log|] == log;
    assert forall x :: 0 <= x < |log| && log[x].Wrote? ==> Wrote(log[x].worker, log[x].index) in log;
  }

  lemma ClaimStep<R>(c: Config<R>, s: State<R>, log: seq<Event>, w: nat)
    requires Inv(c, s) && LogInv(c, s, log) && Enabled(s, Claim(w))
    ensures LogInv(c, Step(c, s, Claim(w)), log + EventsOf(c, s, Claim(w)))
  {
    var events := EventsOf(c, s, Claim(w));
    if events == [] {
      assert log + events == log;
    } else {
      assert (log + events)[..|log|] == log;
    }
  }

  lemma FinishStep<R>(c: Config<R>, s: State<R>, log: seq<Event>, w: nat)
    requires Inv(c, s) && LogInv(c, s, log) && Enabled(s, Finish(w))
    ensures LogInv(c, Step(c, s, Finish(w)), log + EventsOf(c, s, Finish(w)))
  {
    var events, t := EventsOf(c, s, Finish(w)), Step(c, s, Finish(w));
    var i := s.workers[w].index;
    assert forall v :: 0 <= v < |s.workers| && v != w ==> t.workers[v] == s.workers[v];
    if events == [] {
      assert log + events == log && t.results == s.results;
    } else {
      assert events == [Wrote(w, i)] && Wrote(w, i) !in log;
      OneMoreWrite(log, Wrote(w, i));
      assert t.results == s.results[i := t.results[i]] && t.results[i].Some?;
    }
  }

  /** In every interleaving the indices are claimed in order, each exactly once; a slot is
      written at most once, and only by the worker that claimed it. */
  lemma {:induction false} ClaimsAndWrites<R>(c: Config<R>, actions: seq<Action>)
    requires Play(c, actions).Some?
    ensures LogInv(c, Play(c, actions).value, Log(c, actions))
    decreases |actions|
  {
    if actions != [] {
      var earlier, a := actions[..|actions| - 1], actions[|actions| - 1];
      ClaimsAndWrites(c, earlier);
      PlayInv(c, earlier);
      var s, log := Play(c, earlier).value, Log(c, earlier);
      match a
      case Claim(w) => ClaimStep(c, s, log, w);
      case Finish(w) => FinishStep(c, s, log, w);
      case Abort => assert log + [] == log;
    }
  }

  /** At most `min(limit, items)` items are in flight. */
  lemma InFlightBounded<R>(c: Config<R>, actions: seq<Action>)
    requires Play(c, actions).Some?
    ensures var s := Play(c, actions).value;
            |InFlight(s.workers)| <= c.Workers() <= c.limit
  {
    PlayInv(c, actions);
    InFlightSize(Play(c, actions).value.workers);
  }

  function InFlight(workers: seq<Worker>): set<nat> {
    set w | 0 <= w < |workers| && workers[w].Running? :: workers[w].index
  }

  lemma {:induction false} InFlightSize(workers: seq<Worker>)
    ensures |InFlight(workers)| <= |workers|
    decreases |workers|
  {
    if workers == [] {
      assert InFlight(workers) == {};
    } else {
      var n := |workers| - 1;
      var rest := workers[..n];
      InFlightSize(rest);
      var last := if workers[n].Running? then {workers[n].index} else {};
      assert InFlight(workers) <= InFlight(rest) + last by {
        forall i | i in InFlight(workers) ensures i in InFlight(rest) + last {
          var w :| 0 <= w < |workers| && workers[w].Running? && workers[w].index == i;
          if w < n { assert rest[w] == workers[w]; }
        }
      }
      Subset(InFlight(workers), InFlight(rest) + last);
    }
  }

  lemma {:induction false} Subset(a: set<nat>, b: set<nat>)
    requires a <= b
    ensures |a| <= |b|
  {
    if a != {} {
      var x :| x in a;
      Subset(a - {x}, b - {x});
    }
  }

  // ---------------------------------------------------------------------
  // Termination and progress
  // ---------------------------------------------------------------------

  function Weight(workers: seq<Worker>): nat {
    if workers == [] then 0
    else
      var w := workers[|workers| - 1];
      Weight(workers[..|workers| - 1]) + if w == Ready then 1 else if w.Running? then 2 else 0
  }

  function Measure<R>(c: Config<R>, s: State<R>): nat {
    2 * (if s.next < c.items then c.items - s.next else 0) + Weight(s.workers)
  }

  lemma {:induction false} WeightUpdate(workers: seq<Worker>, w: nat, now: Worker)
    requires w < |workers|
    ensures Weight(workers[w := now]) ==
              Weight(workers)
              - (if workers[w] == Ready then 1 else if workers[w].Running? then 2 else 0)
              + (if now == Ready then 1 else if now.Running? then 2 else 0)
    decreases |workers|
  {
    var n := |workers| - 1;
    if w == n {
      assert workers[w := now][..n] == workers[..n];
    } else {
      assert workers[w := now][..n] == workers[..n][w := now];
      WeightUpdate(workers[..n], w, now);
    }
  }

  /** Every worker step lowers the measure: by one when the worker goes on or returns, by at
      least one when it fails. */
  lemma StepDescends<R>(c: Config<R>, s: State<R>, a: Action)
    requires Enabled(s, a) && !a.Abort?
    ensures Measure(c, Step(c, s, a)) < Measure(c, s)
    ensures !SomeFailed(Step(c, s, a)) ==> Measure(c, Step(c, s, a)) == Measure(c, s) - 1
  {
    var t := Step(c, s, a);
    WeightUpdate(s.workers, a.worker, t.workers[a.worker]);
    assert t.workers == s.workers[a.worker := t.workers[a.worker]];
  }

  lemma {:induction false} FreshWeight(n: nat)
    ensures Weight(seq(n, i => Ready)) == n
  {
    if n > 0 {
      assert seq(n, i => Ready)[..n - 1] == seq(n - 1, i => Ready);
      FreshWeight(n - 1);
    }
  }

  function WorkerSteps(actions: seq<Action>): nat {
    if actions == [] then 0
    else WorkerSteps(actions[..|actions| - 1]) + if actions[|actions| - 1].Abort? then 0 else 1
  }

  /** The workers take at most 2 n + min(limit, n) steps in any interleaving, and exactly that
      many in one that returns. */
  lemma {:induction false} StepsAreBounded<R>(c: Config<R>, actions: seq<Action>)
    requires Play(c, actions).Some?
    ensures WorkerSteps(actions) + Measure(c, Play(c, actions).value) <= 2 * c.items + c.Workers()
    ensures !SomeFailed(Play(c, actions).value) ==>
              WorkerSteps(actions) + Measure(c, Play(c, actions).value) == 2 * c.items + c.Workers()
    decreases |actions|
  {
    if actions == [] {
      FreshWeight(c.Workers());
    } else {
      var earlier, a := actions[..|actions| - 1], actions[|actions| - 1];
      StepsAreBounded(c, earlier);
      var s := Play(c, earlier).value;
      if SomeFailed(s) {
        FailureIsFinal(c, earlier, [a]);
        assert earlier + [a] == actions;
      }
      if !a.Abort? { StepDescends(c, s, a); }
    }
  }

  /** No worker can step. */
  ghost predicate Quiescent<R>(s: State<R>) {
    forall w: nat :: !Enabled(s, Claim(w)) && !Enabled(s, Finish(w))
  }

  /** The scheduler never gets stuck: it stops only when every worker returned or failed. */
  lemma QuiescentMeansSettled<R>(c: Config<R>, actions: seq<Action>)
    requires Play(c, actions).Some? && Quiescent(Play(c, actions).value)
    ensures AllDone(Play(c, actions).value) || SomeFailed(Play(c, actions).value)
  {
    PlayInv(c, actions);
    var s := Play(c, actions).value;
    forall w | 0 <= w < |s.workers| ensures s.workers[w] == Done || s.workers[w] == Failed {
      assert !Enabled(s, Claim(w)) && !Enabled(s, Finish(w));
    }
  }

  predicate NoAbort(actions: seq<Action>) {
    forall k :: 0 <= k < |actions| ==> !actions[k].Abort?
  }

  lemma {:induction false} NothingFails<R>(c: Config<R>, actions: seq<Action>)
    requires Play(c, actions).Some? && NoAbort(actions)
    requires forall i :: 0 <= i < c.items ==> c.Outcome(i).Some?
    ensures !Play(c, actions).value.aborted && !SomeFailed(Play(c, actions).value)
    decreases |actions|
  {
    if actions != [] {
      var earlier, a := actions[..|actions| - 1], actions[|actions| - 1];
      assert forall k :: 0 <= k < |earlier| ==> earlier[k] == actions[k];
      NothingFails(c, earlier);
      PlayInv(c, earlier);
      var s := Play(c, earlier).value;
      var t := Step(c, s, a);
      assert c.Outcome(if a.Finish? then s.workers[a.worker].index else 0).Some? || a.Claim?;
      forall w | 0 <= w < |t.workers| ensures t.workers[w] != Failed {
        assert w < |s.workers| && s.workers[w] != Failed;
      }
    }
  }

  /** Total correctness: without an abort and without a fatal throw, every interleaving that
      runs until no worker can step returns exactly the sequential map. */
  lemma EveryRunReturns<R>(c: Config<R>, actions: seq<Action>)
    requires c.limit >= 1
    requires Play(c, actions).Some? && NoAbort(actions) && Quiescent(Play(c, actions).value)
    requires forall i :: 0 <= i < c.items ==> c.Outcome(i).Some?
    ensures Output(c, Play(c, actions).value) == Some(Sequential(c))
    ensures WorkerSteps(actions) == 2 * c.items + c.Workers()
  {
    NothingFails(c, actions);
    QuiescentMeansSettled(c, actions);
    RefinesSequentialMap(c, actions);
    StepsAreBounded(c, actions);
    var s := Play(c, actions).value;
    PlayInv(c, actions);
    DoneWeighsNothing(s.workers);
    if c.items > 0 { assert s.workers[0] == Done; }
  }

  lemma {:induction false} DoneWeighsNothing(workers: seq<Worker>)
    requires forall w :: 0 <= w < |workers| ==> workers[w] == Done
    ensures Weight(workers) == 0
    decreases |workers|
  {
    if workers != [] { DoneWeighsNothing(workers[..|workers| - 1]); }
  }
}
