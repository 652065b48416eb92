/** The Hunt lifecycle (packages/hunt/src/index.ts) against an adapter that may do anything at
    all, and the two-run proof built on it (packages/hunt/src/attack-worker.ts). */
module Hunt {
  import opened Options
  import opened Sorting

  const MAX_DURATION_MS: int := 600_000

  type FindingId = string

  datatype Severity = Critical | High | Medium | Low | Info

  datatype Finding = Finding(id: FindingId, severity: Severity)

  datatype Verdict = True | False | NotAttemptable

  datatype Canonical = Confirmed | NotReproduced | Inconclusive | NotSupported | EnvironmentError | PolicyDenied

  datatype Outcome = Outcome(findingId: FindingId, verdict: Verdict, canonical: Option<Canonical>)

  // ---------------------------------------------------------------------
  // Classification and validation
  // ---------------------------------------------------------------------

  /** `classifyHuntOutcome` (packages/shared/src/hunt-verdict.ts) */
  function Classify(matched: Option<bool>, supported: bool, policyAllowed: bool, environmentError: bool, timedOut: bool): Canonical {
    if !policyAllowed then PolicyDenied
    else if !supported then NotSupported
    else if environmentError then EnvironmentError
    else if timedOut then Inconclusive
    else if matched.Some? then (if matched.value then Confirmed else NotReproduced)
    else Inconclusive
  }

  /** Each verdict is given exactly here. */
  lemma ClassifyIff(matched: Option<bool>, supported: bool, policyAllowed: bool, environmentError: bool, timedOut: bool)
    ensures var verdict := Classify(matched, supported, policyAllowed, environmentError, timedOut);
            var ran := policyAllowed && supported && !environmentError && !timedOut;
            && (verdict == Confirmed <==> ran && matched == Some(true))
            && (verdict == NotReproduced <==> ran && matched == Some(false))
            && (verdict == PolicyDenied <==> !policyAllowed)
            && (verdict == NotSupported <==> policyAllowed && !supported)
            && (verdict == EnvironmentError <==> policyAllowed && supported && environmentError)
            && (verdict == Inconclusive <==> policyAllowed && supported && !environmentError && (timedOut || matched == None))
  {
  }

  /** What an adapter's `execute` may come back with: an exception, or a value whose remaining
      fields have the right shape or not. */
  datatype Answer = Threw | Returned(outcome: Outcome, wellShaped: bool)

  predicate Compatible(verdict: Verdict, canonical: Canonical) {
    match verdict
    case True => canonical == Confirmed
    case False => canonical == NotReproduced
    case NotAttemptable => canonical != Confirmed && canonical != NotReproduced
  }

  /** `validateAdapterOutcome` */
  function Validated(answer: Answer): Option<Outcome> {
    if answer.Returned? && answer.wellShaped
       && (answer.outcome.canonical.Some? ==> Compatible(answer.outcome.verdict, answer.outcome.canonical.value))
    then Some(answer.outcome)
    else None
  }

  /** A verdict somebody would act on. */
  predicate Decisive(o: Outcome) {
    o.verdict != NotAttemptable || o.canonical == Some(Confirmed) || o.canonical == Some(NotReproduced)
  }

  /** An adapter outcome for the finding that was asked about. */
  predicate Genuine(finding: Finding, answer: Answer) {
    Validated(answer).Some? && answer.outcome.findingId == finding.id
  }

  // ---------------------------------------------------------------------
  // The adapter
  // ---------------------------------------------------------------------

  datatype Call = Prepare | Execute(finding: Finding, at: int, timeoutMs: int) | Cleanup

  /** What the adapter does: `answers(i)` is its answer for the i-th eligible finding. */
  datatype Behaviour = Behaviour(prepareFails: bool, cleanupFails: bool, answers: nat -> Answer)

  class Adapter {
    /** The calls received, oldest first. */
    var calls: seq<Call>

    method Receive(call: Call)
      modifies this
      ensures calls == old(calls) + [call]
    {
      calls := calls + [call];
    }
  }

  // ---------------------------------------------------------------------
  // The lifecycle
  // ---------------------------------------------------------------------

  datatype HuntOptions = HuntOptions(severities: set<Severity>, findingId: Option<FindingId>, maxDurationMs: int)

  /** What a run depends on besides the report: the clock reading before each finding, whether
      the execution binding is granted, and the adapter. */
  datatype World = World(started: int, readings: nat -> int, bound: bool, behaviour: Behaviour)

  predicate IsEligible(options: HuntOptions, f: Finding) {
    f.severity in options.severities && (options.findingId.None? || options.findingId.value == "" || f.id == options.findingId.value)
  }

  function Eligible(findings: seq<Finding>, options: HuntOptions): seq<Finding> {
    Filter(findings, (f: Finding) => IsEligible(options, f))
  }

  /** The absolute deadline every call shares. */
  function Deadline(w: World, options: HuntOptions): int {
    w.started + options.maxDurationMs
  }

  predicate InTime(w: World, options: HuntOptions, i: nat) {
    w.readings(i) < Deadline(w, options)
  }

  /** The executions up to the i-th eligible finding: those whose turn came in time, each with
      what is left until the deadline. */
  function Executions(w: World, options: HuntOptions, eligible: seq<Finding>, i: nat): seq<Call>
    requires i <= |eligible|
  {
    if i == 0 then []
    else Executions(w, options, eligible, i - 1) +
         if InTime(w, options, i - 1)
         then [Execute(eligible[i - 1], w.readings(i - 1), Deadline(w, options) - w.readings(i - 1))] else []
  }

  /** An outcome that asserts nothing about its finding. */
  predicate Undecided(finding: Finding, o: Outcome, canonical: Canonical) {
    o == Outcome(finding.id, NotAttemptable, Some(canonical))
  }

  /** What is recorded for one finding before cleanup. */
  predicate Recorded(w: World, options: HuntOptions, finding: Finding, i: nat, o: Outcome) {
    var answer := w.behaviour.answers(i);
    if !InTime(w, options, i) then Undecided(finding, o, Inconclusive)
    else if answer.Threw? then Undecided(finding, o, EnvironmentError)
    else if Genuine(finding, answer) then o == answer.outcome
    else Undecided(finding, o, NotSupported)
  }

  /** The answer to one execution, or the reason there is none. */
  method ExecuteOne(adapter: Adapter, w: World, options: HuntOptions, finding: Finding, i: nat) returns (o: Outcome)
    modifies adapter
    ensures Recorded(w, options, finding, i, o)
    ensures adapter.calls == old(adapter.calls) +
              if InTime(w, options, i) then [Execute(finding, w.readings(i), Deadline(w, options) - w.readings(i))] else []
  {
    var elapsed := w.readings(i) - w.started;
    var remaining := options.maxDurationMs - elapsed;
    if remaining <= 0 {
      return Outcome(finding.id, NotAttemptable, Some(Classify(None, true, true, false, true)));
    }
    adapter.Receive(Execute(finding, w.readings(i), remaining));
    var answer := w.behaviour.answers(i);
    if answer.Threw? {
      return Outcome(finding.id, NotAttemptable, Some(Classify(None, true, true, true, false)));
    }
    var validated := Validated(answer);
    if validated.None? || validated.value.findingId != finding.id {
      return Outcome(finding.id, NotAttemptable, Some(Classify(None, false, true, false, false)));
    }
    o := validated.value;
  }

  // ---------------------------------------------------------------------
  // A run, told from the report and the adapter
  // ---------------------------------------------------------------------

  /** The finding has a selected severity and, if an id is asked for, that id. */
  predicate Qualifies(options: HuntOptions, f: Finding) {
    && f.severity in options.severities
    && (options.findingId == None || options.findingId == Some("") || options.findingId == Some(f.id))
  }

  /** The places of the qualifying findings, in the order of the report. */
  ghost predicate Picks(findings: seq<Finding>, options: HuntOptions, picks: seq<nat>) {
    && Increasing(picks)
    && (forall k :: 0 <= k < |picks| ==> picks[k] < |findings| && Qualifies(options, findings[picks[k]]))
    && (forall i :: 0 <= i < |findings| && Qualifies(options, findings[i]) ==> i in picks)
  }

  /** What a run says about its k-th finding. */
  predicate SaysOf(w: World, options: HuntOptions, finding: Finding, k: nat, o: Outcome) {
    var answer := w.behaviour.answers(k);
    && o.findingId == finding.id
    && if w.behaviour.cleanupFails then o.verdict == NotAttemptable && o.canonical == Some(EnvironmentError)
       else if w.readings(k) - w.started >= options.maxDurationMs then o.verdict == NotAttemptable && o.canonical == Some(Inconclusive)
       else if answer.Threw? then o.verdict == NotAttemptable && o.canonical == Some(EnvironmentError)
       else if answer.wellShaped && Consistent(answer.outcome) && answer.outcome.findingId == finding.id then o == answer.outcome
       else o.verdict == NotAttemptable && o.canonical == Some(NotSupported)
  }

  /** A canonical verdict, if there is one, says what the verdict says. */
  predicate Consistent(o: Outcome) {
    o.canonical.Some? ==>
      && (o.canonical.value == Confirmed <==> o.verdict == True)
      && (o.canonical.value == NotReproduced <==> o.verdict == False)
  }

  /** The calls between prepare and cleanup: one execution, with the time that is left, for every
      qualifying finding whose turn comes before the time is up. */
  ghost predicate TurnsOf(w: World, options: HuntOptions, n: nat, turns: seq<nat>) {
    && Increasing(turns)
    && (forall k :: 0 <= k < |turns| ==> turns[k] < n && w.readings(turns[k]) - w.started < options.maxDurationMs)
    && (forall i: nat :: i < n && w.readings(i) - w.started < options.maxDurationMs ==> i in turns)
  }

  predicate IsTurn(w: World, options: HuntOptions, finding: Finding, turn: nat, call: Call) {
    call == Execute(finding, w.readings(turn), options.maxDurationMs - (w.readings(turn) - w.started))
  }

  ghost predicate CallsTold(w: World, options: HuntOptions, findings: seq<Finding>, picks: seq<nat>, calls: seq<Call>) {
    exists turns :: TurnsOf(w, options, |picks|, turns) && |calls| == |turns|
                 && forall k :: 0 <= k < |turns| ==>
                      turns[k] < |picks| && picks[turns[k]] < |findings| &&
                       IsTurn(w, options, findings[picks[turns[k]]], turns[k], calls[k])
  }

  /** Everything a completed run is. */
  ghost predicate RunTold(w: World, options: HuntOptions, findings: seq<Finding>, calls: seq<Call>, outcomes: seq<Outcome>) {
    exists picks ::
      && Picks(findings, options, picks) && |outcomes| == |picks|
      && (forall k :: 0 <= k < |picks| ==> picks[k] < |findings| && SaysOf(w, options, findings[picks[k]], k, outcomes[k]))
      && CallsTold(w, options, findings, picks, calls)
  }

  lemma EligiblePicks(findings: seq<Finding>, options: HuntOptions) returns (picks: seq<nat>)
    ensures Picks(findings, options, picks) && |Eligible(findings, options)| == |picks|
    ensures forall k :: 0 <= k < |picks| ==> picks[k] < |findings| && Eligible(findings, options)[k] == findings[picks[k]]
  {
    var keep := (f: Finding) => IsEligible(options, f);
    picks := FilterSelects(findings, keep);
  }

  lemma {:induction false} ExecutionTurns(w: World, options: HuntOptions, eligible: seq<Finding>, n: nat) returns (turns: seq<nat>)
    requires n <= |eligible|
    ensures TurnsOf(w, options, n, turns) && |Executions(w, options, eligible, n)| == |turns|
    ensures forall k :: 0 <= k < |turns| ==>
              turns[k] < |eligible| && IsTurn(w, options, eligible[turns[k]], turns[k], Executions(w, options, eligible, n)[k])
  {
    if n == 0 {
      turns := [];
    } else {
      turns := ExecutionTurns(w, options, eligible, n - 1);
      if InTime(w, options, n - 1) { turns := turns + [n - 1]; }
    }
  }

  lemma OutcomeSays(w: World, options: HuntOptions, finding: Finding, k: nat, o: Outcome)
    requires OutcomeAt(w, options, finding, k, o)
    ensures SaysOf(w, options, finding, k, o)
  {
  }

  /** A completed run is as told. */
  lemma RunAsTold(w: World, options: HuntOptions, findings: seq<Finding>, outcomes: seq<Outcome>)
    requires OutcomesOf(w, options, Eligible(findings, options), outcomes)
    ensures var eligible := Eligible(findings, options);
            RunTold(w, options, findings, Executions(w, options, eligible, |eligible|), outcomes)
  {
    var eligible := Eligible(findings, options);
    var picks := EligiblePicks(findings, options);
    var turns := ExecutionTurns(w, options, eligible, |eligible|);
    forall k | 0 <= k < |picks| ensures SaysOf(w, options, findings[picks[k]], k, outcomes[k]) {
      OutcomeSays(w, options, eligible[k], k, outcomes[k]);
    }
    assert CallsTold(w, options, findings, picks, Executions(w, options, eligible, |eligible|));
  }

  datatype HuntRun = Rejected | Completed(outcomes: seq<Outcome>)

  predicate OptionsValid(options: HuntOptions) {
    0 < options.maxDurationMs <= MAX_DURATION_MS
  }

  /** The loop over the eligible findings. */
  method ExecuteAll(adapter: Adapter, w: World, options: HuntOptions, eligible: seq<Finding>) returns (outcomes: seq<Outcome>)
    modifies adapter
    ensures |outcomes| == |eligible| && AllRecorded(w, options, eligible, outcomes)
    ensures adapter.calls == old(adapter.calls) + Executions(w, options, eligible, |eligible|)
  {
    outcomes := [];
    for i := 0 to |eligible|
      invariant |outcomes| == i && AllRecorded(w, options, eligible, outcomes)
      invariant adapter.calls == old(adapter.calls) + Executions(w, options, eligible, i)
    {
      var o := ExecuteOne(adapter, w, options, eligible[i], i);
      outcomes := outcomes + [o];
      assert adapter.calls == old(adapter.calls) + Executions(w, options, eligible, i + 1);
    }
  }

  /** `runHunt` with an adapter: whatever the adapter does, cleanup runs exactly once, after
      everything else, and a returned run has one outcome per eligible finding, in order. */
  method RunHunt(adapter: Adapter, findings: seq<Finding>, options: HuntOptions, w: World) returns (run: HuntRun)
    modifies adapter
    ensures run.Rejected? <==> !OptionsValid(options) || !w.bound || w.behaviour.prepareFails
    ensures adapter.calls == old(adapter.calls) +
              (if !OptionsValid(options) || !w.bound then []
               else if w.behaviour.prepareFails then [Prepare, Cleanup]
               else [Prepare] + Executions(w, options, Eligible(findings, options), |Eligible(findings, options)|) + [Cleanup])
    ensures run.Completed? ==> OutcomesOf(w, options, Eligible(findings, options), run.outcomes)
    // The same told from the report and the adapter.
    ensures run.Rejected? <==>
              options.maxDurationMs <= 0 || options.maxDurationMs > 600_000 || !w.bound || w.behaviour.prepareFails
    ensures run.Completed? ==>
              RunTold(w, options, findings, Executions(w, options, Eligible(findings, options), |Eligible(findings, options)|), run.outcomes)
  {
    if !OptionsValid(options) || !w.bound {
      return Rejected;
    }
    var eligible := Eligible(findings, options);
    adapter.Receive(Prepare);
    if w.behaviour.prepareFails {
      adapter.Receive(Cleanup);
      assert old(adapter.calls) + [Prepare] + [Cleanup] == old(adapter.calls) + [Prepare, Cleanup];
      return Rejected;
    }
    var outcomes := ExecuteAll(adapter, w, options, eligible);
    adapter.Receive(Cleanup);
    InOneRow(old(adapter.calls), Executions(w, options, eligible, |eligible|));
    if w.behaviour.cleanupFails {
      outcomes := Discard(outcomes);
    }
    assert OutcomesOf(w, options, eligible, outcomes);
    run := Completed(outcomes);
    RunAsTold(w, options, findings, outcomes);
  }

  lemma InOneRow(before: seq<Call>, executions: seq<Call>)
    ensures before + [Prepare] + executions + [Cleanup] == before + ([Prepare] + executions + [Cleanup])
  {
  }

  ghost predicate AllRecorded(w: World, options: HuntOptions, eligible: seq<Finding>, outcomes: seq<Outcome>) {
    && |outcomes| <= |eligible|
    && forall i :: 0 <= i < |outcomes| ==> Recorded(w, options, eligible[i], i, outcomes[i])
  }

  /** The rewriting after a failed cleanup. */
  method Discard(outcomes: seq<Outcome>) returns (r: seq<Outcome>)
    ensures |r| == |outcomes|
    ensures forall i :: 0 <= i < |r| ==> r[i] == Outcome(outcomes[i].findingId, NotAttemptable, Some(EnvironmentError))
  {
    r := outcomes;
    for index := 0 to |outcomes|
      invariant |r| == |outcomes|
      invariant forall i :: 0 <= i < index ==> r[i] == Outcome(outcomes[i].findingId, NotAttemptable, Some(EnvironmentError))
      invariant forall i :: index <= i < |r| ==> r[i] == outcomes[i]
    {
      r := r[index := Outcome(r[index].findingId, NotAttemptable, Some(Classify(None, true, true, true, false)))];
    }
  }

  /** The outcomes of a returned run. */
  ghost predicate OutcomesOf(w: World, options: HuntOptions, eligible: seq<Finding>, outcomes: seq<Outcome>) {
    && |outcomes| == |eligible|
    && forall i :: 0 <= i < |eligible| ==> OutcomeAt(w, options, eligible[i], i, outcomes[i])
  }

  predicate OutcomeAt(w: World, options: HuntOptions, finding: Finding, i: nat, o: Outcome) {
    if w.behaviour.cleanupFails then Undecided(finding, o, EnvironmentError) else Recorded(w, options, finding, i, o)
  }

  // ---------------------------------------------------------------------
  // What a run promises
  // ---------------------------------------------------------------------

  /** A decisive outcome is exactly what a genuine adapter answer said, in time and after a
      cleanup that worked; it is about the finding it stands for. */
  lemma DecisiveIff(w: World, options: HuntOptions, finding: Finding, i: nat, o: Outcome)
    requires OutcomeAt(w, options, finding, i, o)
    ensures o.findingId == finding.id
    ensures Decisive(o) <==>
              && !w.behaviour.cleanupFails && InTime(w, options, i)
              && Genuine(finding, w.behaviour.answers(i)) && Decisive(w.behaviour.answers(i).outcome)
    ensures Decisive(o) ==> o == w.behaviour.answers(i).outcome
    ensures o.canonical == Some(Confirmed) ==> o.verdict == True
    ensures o.canonical == Some(NotReproduced) ==> o.verdict == False
  {
  }

  predicate Monotone(w: World, n: nat) {
    forall i, j :: 0 <= i <= j < n ==> w.started <= w.readings(i) <= w.readings(j)
  }

  /** Every execution is given exactly what is left until one absolute deadline; under a clock
      that does not go back that is between one millisecond and the whole budget. */
  lemma {:induction false} SharedDeadline(w: World, options: HuntOptions, eligible: seq<Finding>, i: nat, k: nat)
    requires i <= |eligible| && k < |Executions(w, options, eligible, i)|
    ensures var call := Executions(w, options, eligible, i)[k];
            && call.Execute? && call.finding in eligible
            && call.at + call.timeoutMs == Deadline(w, options) && call.timeoutMs > 0
            && (Monotone(w, i) ==> call.timeoutMs <= options.maxDurationMs)
  {
    if k < |Executions(w, options, eligible, i - 1)| {
      SharedDeadline(w, options, eligible, i - 1, k);
      assert Executions(w, options, eligible, i)[k] == Executions(w, options, eligible, i - 1)[k];
    }
  }

  /** In the calls of a run, cleanup occurs once. */
  lemma CleanupOnce(w: World, options: HuntOptions, eligible: seq<Finding>)
    ensures multiset([Prepare] + Executions(w, options, eligible, |eligible|) + [Cleanup])[Cleanup] == 1
  {
    var executions := Executions(w, options, eligible, |eligible|);
    forall k | 0 <= k < |executions| ensures executions[k] != Cleanup {
      SharedDeadline(w, options, eligible, |eligible|, k);
    }
    assert Cleanup !in multiset(executions);
  }

  predicate IsExecutionOf(call: Call, f: Finding) {
    call.Execute? && call.finding == f
  }

  /** Once the deadline has passed it stays passed: the findings executed are a prefix. */
  lemma {:induction false} ExecutedArePrefix(w: World, options: HuntOptions, eligible: seq<Finding>, n: nat)
    requires n <= |eligible| && Monotone(w, n)
    ensures |Executions(w, options, eligible, n)| <= n
    ensures forall k :: 0 <= k < |Executions(w, options, eligible, n)| ==>
              IsExecutionOf(Executions(w, options, eligible, n)[k], eligible[k])
    ensures forall i :: 0 <= i < n ==> (InTime(w, options, i) <==> i < |Executions(w, options, eligible, n)|)
  {
    if n > 0 {
      ExecutedArePrefix(w, options, eligible, n - 1);
      var before := Executions(w, options, eligible, n - 1);
      if InTime(w, options, n - 1) {
        assert forall i :: 0 <= i < n - 1 ==> w.readings(i) <= w.readings(n - 1);
        assert n > 1 ==> InTime(w, options, n - 2);
      }
    }
  }

  // ---------------------------------------------------------------------
  // The two-run proof
  // ---------------------------------------------------------------------

  datatype ProofStatus = ProofConfirmed | ProofNotReproduced | ProofInconclusive

  datatype Proof = NoProof | Proof(status: ProofStatus, controlPassed: bool)

  /** The selection a prepared attack runs with: the first finding of the planned id. */
  function Selection(f: Finding, maxDurationMs: int): HuntOptions {
    HuntOptions({f.severity}, Some(f.id), maxDurationMs)
  }

  /** The id comes from a hypothesis, whose schema does not take an empty one. */
  predicate FirstWithId(findings: seq<Finding>, f: Finding, at: nat) {
    f.id != "" && at < |findings| && findings[at] == f && forall i :: 0 <= i < at ==> findings[i].id != f.id
  }

  lemma {:induction false} NobodyElse(findings: seq<Finding>, options: HuntOptions, id: FindingId)
    requires id != "" && options.findingId == Some(id) && forall i :: 0 <= i < |findings| ==> findings[i].id != id
    ensures Eligible(findings, options) == []
  {
    if findings != [] { NobodyElse(findings[..|findings| - 1], options, id); }
  }

  /** The finding looked up by its id is the first one the run deals with, so "no outcome for
      the bound finding" cannot happen. */
  lemma {:induction false} SelectedIsFirst(findings: seq<Finding>, f: Finding, at: nat, maxDurationMs: int)
    requires FirstWithId(findings, f, at)
    ensures var eligible := Eligible(findings, Selection(f, maxDurationMs)); |eligible| > 0 && eligible[0] == f
  {
    var options := Selection(f, maxDurationMs);
    var n := |findings| - 1;
    var before := Eligible(findings[..n], options);
    assert Eligible(findings, options) == before + if IsEligible(options, findings[n]) then [findings[n]] else [];
    if at < n {
      assert FirstWithId(findings[..n], f, at);
      SelectedIsFirst(findings[..n], f, at, maxDurationMs);
    } else {
      NobodyElse(findings[..n], options, f.id);
    }
  }

  /** Everything worked in one run, and in time the adapter gave a well-shaped answer about the
      finding with this verdict, in both forms. */
  predicate RanClean(w: World, options: HuntOptions, f: Finding, verdict: Verdict, canonical: Canonical) {
    && w.bound && !w.behaviour.prepareFails && !w.behaviour.cleanupFails
    && w.readings(0) - w.started < options.maxDurationMs
    && w.behaviour.answers(0) == Returned(Outcome(f.id, verdict, Some(canonical)), true)
  }

  /** `runSupportedHuntProof`, for a supported adapter: the attack, then the control.  `at` is
      where the finding was found in the report; `attempt` says whether the attempt document is
      accepted. */
  method RunProof(primary: Adapter, control: Adapter, findings: seq<Finding>, f: Finding, ghost at: nat,
                  maxDurationMs: int, first: World, second: World, attempt: bool)
    returns (proof: Proof)
    requires FirstWithId(findings, f, at) && primary != control
    modifies primary, control
    // A decisive status means that both runs prepared, executed and cleaned up.
    ensures proof.Proof? && proof.status == ProofConfirmed <==>
              attempt && 0 < maxDurationMs <= 600_000
              && RanClean(first, Selection(f, maxDurationMs), f, True, Confirmed)
              && RanClean(second, Selection(f, maxDurationMs), f, False, NotReproduced)
    ensures proof.Proof? && proof.status == ProofNotReproduced <==>
              attempt && 0 < maxDurationMs <= 600_000
              && RanClean(first, Selection(f, maxDurationMs), f, False, NotReproduced)
              && RanClean(second, Selection(f, maxDurationMs), f, False, NotReproduced)
    ensures proof.Proof? ==> (proof.controlPassed <==> RanClean(second, Selection(f, maxDurationMs), f, False, NotReproduced))
    ensures proof.NoProof? <==>
              !attempt || maxDurationMs <= 0 || maxDurationMs > 600_000
              || !first.bound || first.behaviour.prepareFails || !second.bound || second.behaviour.prepareFails
  {
    var options := Selection(f, maxDurationMs);
    SelectedIsFirst(findings, f, at, maxDurationMs);
    var run := RunHunt(primary, findings, options, first);
    if run.Rejected? {
      return NoProof;
    }
    var counter := RunHunt(control, findings, options, second);
    if counter.Rejected? || !attempt {
      return NoProof;
    }
    var outcome, counterexample := run.outcomes[0], counter.outcomes[0];
    VerdictOf(first, options, f, outcome);
    VerdictOf(second, options, f, counterexample);
    var passed := counterexample.canonical == Some(NotReproduced);
    var status :=
      if !passed then ProofInconclusive
      else if outcome.canonical == Some(Confirmed) then ProofConfirmed
      else if outcome.canonical == Some(NotReproduced) then ProofNotReproduced
      else ProofInconclusive;
    proof := Proof(status, passed);
  }

  /** A decisive canonical verdict comes from a clean run and nothing else. */
  lemma VerdictOf(w: World, options: HuntOptions, f: Finding, o: Outcome)
    requires OutcomeAt(w, options, f, 0, o) && w.bound && !w.behaviour.prepareFails
    ensures o.canonical == Some(Confirmed) <==> RanClean(w, options, f, True, Confirmed)
    ensures o.canonical == Some(NotReproduced) <==> RanClean(w, options, f, False, NotReproduced)
  {
  }
}
