/** The preparation phase of `execute_tcs`: a loop that starts randomly chosen jobs and waits for
    them in any order, within a volume and a job budget. */
module TcsScheduler {
  import opened Options

  const U64_MAX: nat := 0xffff_ffff_ffff_ffff
  const MAX_PREPARED: nat := 32

  /** A token conditional swap; `volume` is set to U64_MAX once it was picked. */
  datatype Tcs = Tcs(pubkey: nat, id: nat, volume: nat)

  /** A job in flight with its estimated volume, or a prepared execution with its actual one. */
  datatype Job = Job(index: nat, volume: nat)

  /** How a preparation ends: an execution, nothing to execute, or an error. */
  datatype Outcome = Prepared(volume: nat) | Nothing | Failed

  /** `started` records the entries for which a job was started. */
  datatype State = State(
    tcs: seq<Tcs>,
    pending: seq<Job>,
    prepared: seq<Job>,
    pendingVolume: int,
    preparedVolume: int,
    noNewJob: bool,
    started: set<nat>)

  datatype Step =
    | Complete(j: nat, outcome: Outcome)
    | NoFit
    | Start(i: nat, accepted: bool)

  // ---- The steps ----

  predicate Running(s: State, max: nat) {
    |s.prepared| < MAX_PREPARED && s.preparedVolume < max
  }

  predicate MustWait(s: State, max: nat) {
    || |s.prepared| + |s.pending| >= MAX_PREPARED
    || s.preparedVolume + s.pendingVolume >= max
    || s.noNewJob
  }

  /** The sampling weight of an entry: 0 when it was picked already or does not fit. */
  function Weight(t: Tcs, max: nat, available: int): nat {
    if t.volume == U64_MAX then 0
    else
      var capped := if t.volume < max then t.volume else max;
      var volume := if capped < 1 then 1 else capped;
      if volume <= available then volume else 0
  }

  predicate Fits(s: State, max: nat, i: nat) {
    i < |s.tcs| && Weight(s.tcs[i], max, max - s.pendingVolume - s.preparedVolume) > 0
  }

  function WithoutIndex(s: seq<Job>, j: nat): seq<Job>
    requires j < |s|
  {
    s[..j] + s[j + 1..]
  }

  predicate Enabled(s: State, max: nat, step: Step) {
    && Running(s, max)
    && match step
       case Complete(j, _) => MustWait(s, max) && j < |s.pending|
       case NoFit => !MustWait(s, max) && forall i: nat :: i < |s.tcs| ==> !Fits(s, max, i)
       case Start(i, _) => !MustWait(s, max) && Fits(s, max, i)
  }

  function Next(s: State, max: nat, step: Step): State
    requires Enabled(s, max, step)
  {
    match step
    case Complete(j, outcome) =>
      var job := s.pending[j];
      var after := s.(pending := WithoutIndex(s.pending, j),
                      pendingVolume := s.pendingVolume - job.volume,
                      noNewJob := false);
      if outcome.Prepared? then
        after.(preparedVolume := s.preparedVolume + outcome.volume,
               prepared := s.prepared + [Job(job.index, outcome.volume)])
      else after
    case NoFit => s.(noNewJob := true)
    case Start(i, accepted) =>
      var t := s.tcs[i];
      var marked := s.(tcs := s.tcs[i := t.(volume := U64_MAX)]);
      if accepted then
        marked.(pending := s.pending + [Job(i, t.volume)],
                pendingVolume := s.pendingVolume + t.volume,
                started := s.started + {i})
      else marked
  }

  function Initial(tcs: seq<Tcs>): State {
    State(tcs, [], [], 0, 0, false, {})
  }

  // ---- Volumes ----

  function Total(s: seq<Job>): nat {
    if s == [] then 0 else Total(s[..|s| - 1]) + s[|s| - 1].volume
  }

  lemma {:induction false} TotalConcat(a: seq<Job>, b: seq<Job>)
    ensures Total(a + b) == Total(a) + Total(b)
  {
    if b == [] {
      assert a + b == a;
    } else {
      TotalConcat(a, b[..|b| - 1]);
      assert (a + b)[..|a + b| - 1] == a + b[..|b| - 1];
    }
  }

  lemma TotalOne(x: Job)
    ensures Total([x]) == x.volume
  {
    assert [x][..0] == [];
  }

  lemma TotalWithout(s: seq<Job>, j: nat)
    requires j < |s|
    ensures Total(WithoutIndex(s, j)) == Total(s) - s[j].volume
  {
    hide Total;
    assert s == s[..j] + ([s[j]] + s[j + 1..]);
    TotalConcat(s[..j], [s[j]] + s[j + 1..]);
    TotalConcat([s[j]], s[j + 1..]);
    TotalOne(s[j]);
    TotalConcat(s[..j], s[j + 1..]);
  }

  lemma {:induction false} TotalAtLeast(s: seq<Job>, j: nat)
    requires j < |s|
    ensures s[j].volume <= Total(s)
  {
    if j < |s| - 1 { TotalAtLeast(s[..|s| - 1], j); }
  }

  // ---- What every step keeps ----

  /** At most one job has a positive volume. */
  ghost predicate OneLarge(jobs: seq<Job>) {
    forall i, j :: 0 <= i < j < |jobs| ==> jobs[i].volume == 0 || jobs[j].volume == 0
  }

  /** No entry has two jobs or executions. */
  ghost predicate NoneTwice(pending: seq<Job>, prepared: seq<Job>) {
    && (forall i, j :: 0 <= i < j < |pending| ==> pending[i].index != pending[j].index)
    && (forall i, j :: 0 <= i < j < |prepared| ==> prepared[i].index != prepared[j].index)
    && (forall i, j :: 0 <= i < |pending| && 0 <= j < |prepared| ==> pending[i].index != prepared[j].index)
  }

  ghost predicate JobsMarked(s: State) {
    && (forall i :: i in s.started ==> i < |s.tcs| && s.tcs[i].volume == U64_MAX)
    && (forall i :: 0 <= i < |s.pending| ==> s.pending[i].index in s.started)
    && (forall i :: 0 <= i < |s.prepared| ==> s.prepared[i].index in s.started)
  }

  ghost predicate Accounts(s: State, max: nat) {
    && s.pendingVolume == Total(s.pending)
    && s.preparedVolume == Total(s.prepared)
    && |s.prepared| + |s.pending| <= MAX_PREPARED
    && (s.pendingVolume > max ==> OneLarge(s.pending))
    && (s.preparedVolume < 2 * max || (max == 0 && s.preparedVolume == 0))
    && (forall i :: 0 <= i < |s.prepared| ==> s.prepared[i].volume <= max)
  }

  ghost predicate Inv(s: State, max: nat) {
    && Accounts(s, max)
    && JobsMarked(s)
    && NoneTwice(s.pending, s.prepared)
    && (s.noNewJob ==> forall i: nat :: i < |s.tcs| ==> !Fits(s, max, i))
  }

  /** A prepared execution is capped by the volume budget. */
  predicate Capped(step: Step, max: nat) {
    step.Complete? && step.outcome.Prepared? ==> step.outcome.volume <= max
  }

  lemma CompleteKeepsAccounts(s: State, max: nat, j: nat, outcome: Outcome)
    requires Accounts(s, max) && Enabled(s, max, Complete(j, outcome)) && Capped(Complete(j, outcome), max)
    ensures Accounts(Next(s, max, Complete(j, outcome)), max)
    ensures s.pending[j].volume <= s.pendingVolume
  {
    TotalWithout(s.pending, j);
    TotalAtLeast(s.pending, j);
    if outcome.Prepared? {
      var x := Job(s.pending[j].index, outcome.volume);
      TotalConcat(s.prepared, [x]);
      TotalOne(x);
    }
  }

  lemma StartKeepsAccounts(s: State, max: nat, i: nat)
    requires Accounts(s, max) && Enabled(s, max, Start(i, true))
    ensures Accounts(Next(s, max, Start(i, true)), max)
  {
    var x := Job(i, s.tcs[i].volume);
    TotalConcat(s.pending, [x]);
    TotalOne(x);
    if x.volume > max {
      assert s.pendingVolume == 0;
      forall k | 0 <= k < |s.pending| ensures s.pending[k].volume == 0 {
        TotalAtLeast(s.pending, k);
      }
    }
  }

  lemma CompleteKeepsInv(s: State, max: nat, j: nat, outcome: Outcome)
    requires Inv(s, max) && Enabled(s, max, Complete(j, outcome)) && Capped(Complete(j, outcome), max)
    ensures Inv(Next(s, max, Complete(j, outcome)), max)
  {
    CompleteKeepsAccounts(s, max, j, outcome);
  }

  lemma NoFitKeepsInv(s: State, max: nat)
    requires Inv(s, max) && Enabled(s, max, NoFit)
    ensures Inv(Next(s, max, NoFit), max)
  {
    forall i: nat | i < |s.tcs| ensures !Fits(Next(s, max, NoFit), max, i) {
      assert !Fits(s, max, i);
    }
  }

  lemma StartKeepsInv(s: State, max: nat, i: nat, accepted: bool)
    requires Inv(s, max) && Enabled(s, max, Start(i, accepted))
    ensures Inv(Next(s, max, Start(i, accepted)), max)
    ensures i !in s.started
  {
    if accepted { StartKeepsAccounts(s, max, i); }
  }

  /** Every step keeps the invariant, starts a fresh entry, and never subtracts below zero. */
  lemma StepKeepsInv(s: State, max: nat, step: Step)
    requires Inv(s, max) && Enabled(s, max, step) && Capped(step, max)
    ensures Inv(Next(s, max, step), max)
    ensures step.Start? ==> step.i !in s.started
    ensures step.Complete? ==> s.pending[step.j].volume <= s.pendingVolume
    ensures !MustWait(s, max) ==> 0 <= max - s.pendingVolume - s.preparedVolume
  {
    match step
    case Complete(j, outcome) =>
      CompleteKeepsInv(s, max, j, outcome);
      TotalAtLeast(s.pending, j);
    case NoFit => NoFitKeepsInv(s, max);
    case Start(i, accepted) => StartKeepsInv(s, max, i, accepted);
  }

  // ---- Runs ----

  /** The state after the given steps, None if one of them was not possible. */
  function After(tcs: seq<Tcs>, max: nat, steps: seq<Step>): Option<State> {
    if steps == [] then Some(Initial(tcs))
    else
      var n := |steps| - 1;
      var before := After(tcs, max, steps[..n]);
      if before.Some? && Enabled(before.value, max, steps[n]) && Capped(steps[n], max)
      then Some(Next(before.value, max, steps[n]))
      else None
  }

  /** The indexes started in a run, in order. */
  function Starts(steps: seq<Step>): seq<nat> {
    if steps == [] then []
    else
      var last := steps[|steps| - 1];
      Starts(steps[..|steps| - 1]) + if last.Start? && last.accepted then [last.i] else []
  }

  /** In every reachable state the accounting is exact, the budgets hold, and no entry was started
      twice. */
  lemma {:induction false} RunsAreSafe(tcs: seq<Tcs>, max: nat, steps: seq<Step>)
    requires After(tcs, max, steps).Some?
    ensures Inv(After(tcs, max, steps).value, max)
    ensures forall i :: i in Starts(steps) <==> i in After(tcs, max, steps).value.started
    ensures forall i, j :: 0 <= i < j < |Starts(steps)| ==> Starts(steps)[i] != Starts(steps)[j]
  {
    if steps != [] {
      var n := |steps| - 1;
      RunsAreSafe(tcs, max, steps[..n]);
      StepKeepsInv(After(tcs, max, steps[..n]).value, max, steps[n]);
      var before := Starts(steps[..n]);
      if steps[n].Start? && steps[n].accepted {
        assert steps[n].i !in before;
        assert Starts(steps) == before + [steps[n].i];
      }
    }
  }

  // ---- Termination ----

  function Unmarked(tcs: seq<Tcs>): nat {
    if tcs == [] then 0
    else Unmarked(tcs[..|tcs| - 1]) + if tcs[|tcs| - 1].volume == U64_MAX then 0 else 1
  }

  lemma {:induction false} MarkOne(tcs: seq<Tcs>, i: nat)
    requires i < |tcs| && tcs[i].volume != U64_MAX
    ensures Unmarked(tcs[i := tcs[i].(volume := U64_MAX)]) == Unmarked(tcs) - 1
  {
    var marked := tcs[i := tcs[i].(volume := U64_MAX)];
    var n := |tcs| - 1;
    if i < n {
      MarkOne(tcs[..n], i);
      assert marked[..n] == tcs[..n][i := tcs[i].(volume := U64_MAX)];
    } else {
      assert marked[..n] == tcs[..n];
    }
  }

  lemma {:induction false} UnmarkedBound(tcs: seq<Tcs>)
    ensures Unmarked(tcs) <= |tcs|
  {
    if tcs != [] { UnmarkedBound(tcs[..|tcs| - 1]); }
  }

  function Measure(s: State): nat {
    4 * Unmarked(s.tcs) + 2 * |s.pending| + if s.noNewJob then 0 else 1
  }

  lemma StepDecreases(s: State, max: nat, step: Step)
    requires Enabled(s, max, step)
    ensures Measure(Next(s, max, step)) < Measure(s)
  {
    if step.Start? { MarkOne(s.tcs, step.i); }
  }

  /** Every run is finite, with at most four steps for each entry and one more. */
  lemma {:induction false} RunsAreShort(tcs: seq<Tcs>, max: nat, steps: seq<Step>)
    requires After(tcs, max, steps).Some?
    ensures |steps| + Measure(After(tcs, max, steps).value) <= 4 * |tcs| + 1
  {
    if steps == [] {
      UnmarkedBound(tcs);
    } else {
      var n := |steps| - 1;
      RunsAreShort(tcs, max, steps[..n]);
      StepDecreases(After(tcs, max, steps[..n]).value, max, steps[n]);
    }
  }

  /** The loop has ended: its guard is false, or it must wait and nothing is in flight. */
  predicate Ended(s: State, max: nat) {
    !Running(s, max) || (MustWait(s, max) && s.pending == [])
  }

  /** A state that has not ended can take a step. */
  lemma NeverStuck(s: State, max: nat)
    requires !Ended(s, max)
    ensures exists step :: Enabled(s, max, step)
  {
    if MustWait(s, max) {
      assert Enabled(s, max, Complete(0, Nothing));
    } else if exists i: nat :: i < |s.tcs| && Fits(s, max, i) {
      var i: nat :| i < |s.tcs| && Fits(s, max, i);
      assert Enabled(s, max, Start(i, true));
    } else {
      assert Enabled(s, max, NoFit);
    }
  }

  /** When the loop ends below both budgets, nothing is in flight and nothing that was not picked
      fits the remaining volume. */
  lemma EndLeavesNothingFitting(s: State, max: nat)
    requires Inv(s, max) && Ended(s, max) && Running(s, max)
    ensures s.pending == [] && s.pendingVolume == 0
    ensures forall i: nat :: i < |s.tcs| ==> Weight(s.tcs[i], max, max - s.preparedVolume) == 0
  {
    forall i: nat | i < |s.tcs| ensures Weight(s.tcs[i], max, max - s.preparedVolume) == 0 {
      assert !Fits(s, max, i);
    }
  }

  /** Volumes of tcs that leave room for the budget keep every sum within a u64. */
  lemma SumsFitU64(s: State, max: nat, largest: nat)
    requires Inv(s, max)
    requires forall i :: 0 <= i < |s.pending| ==> s.pending[i].volume <= largest
    ensures s.pendingVolume <= if largest < max then max else largest
  {
    if s.pendingVolume > max {
      LargeIsAll(s.pending, largest);
    }
  }

  lemma {:induction false} LargeIsAll(jobs: seq<Job>, largest: nat)
    requires OneLarge(jobs)
    requires forall i :: 0 <= i < |jobs| ==> jobs[i].volume <= largest
    ensures Total(jobs) <= largest
  {
    if jobs != [] {
      var rest, last := jobs[..|jobs| - 1], jobs[|jobs| - 1];
      if last.volume == 0 {
        LargeIsAll(rest, largest);
      } else {
        LargeIsAll(rest, 0);
      }
    }
  }

  // ---- The loop ----

  lemma RunExtends(tcs: seq<Tcs>, max: nat, steps: seq<Step>, step: Step)
    requires After(tcs, max, steps).Some?
    requires Enabled(After(tcs, max, steps).value, max, step) && Capped(step, max)
    ensures After(tcs, max, steps + [step]) == Some(Next(After(tcs, max, steps).value, max, step))
  {
    assert (steps + [step])[..|steps|] == steps;
  }

  /** Samples an entry of positive weight, None if there is none. */
  method Sample(tcs: seq<Tcs>, max: nat, available: int) returns (sample: Option<nat>)
    ensures sample.None? <==> forall i :: 0 <= i < |tcs| ==> Weight(tcs[i], max, available) == 0
    ensures sample.Some? ==> sample.value < |tcs| && Weight(tcs[sample.value], max, available) > 0
  {
    var found := false;
    for i := 0 to |tcs|
      invariant found <==> exists k :: 0 <= k < i && Weight(tcs[k], max, available) > 0
    {
      found := found || Weight(tcs[i], max, available) > 0;
    }
    if !found {
      return None;
    }
    var i: nat :| i < |tcs| && Weight(tcs[i], max, available) > 0;
    return Some(i);
  }

  /** The preparation loop. Sampling, the error tracker's veto, the completion order and the
      outcome of a preparation are arbitrary choices; every execution is a run of the steps, and
      it terminates. */
  method PrepareExecutions(tcs: array<Tcs>, max: nat) returns (prepared: seq<Job>, ghost steps: seq<Step>)
    requires tcs.Length > 0 || max == 0
    modifies tcs
    ensures var end := After(old(tcs[..]), max, steps);
            end.Some? && Ended(end.value, max) && end.value.prepared == prepared && end.value.tcs == tcs[..]
    ensures |prepared| <= MAX_PREPARED
    ensures Total(prepared) < 2 * max || (max == 0 && prepared == [])
  {
    ghost var input := tcs[..];
    var pendingVolume, preparedVolume := 0, 0;
    var pending: seq<Job> := [];
    var noNewJob := false;
    prepared, steps := [], [];
    ghost var s := Initial(input);
    while |prepared| < MAX_PREPARED && preparedVolume < max
      invariant After(input, max, steps) == Some(s)
      invariant s == State(tcs[..], pending, prepared, pendingVolume, preparedVolume, noNewJob, s.started)
      decreases Measure(s)
    {
      ghost var step;
      if |prepared| + |pending| >= MAX_PREPARED || preparedVolume + pendingVolume >= max || noNewJob {
        if |pending| == 0 {
          break;
        }
        var j: nat :| j < |pending|;
        var outcome: Outcome :| outcome.Prepared? ==> outcome.volume <= max;
        step := Complete(j, outcome);
        var job := pending[j];
        pending := WithoutIndex(pending, j);
        pendingVolume := pendingVolume - job.volume;
        if outcome.Prepared? {
          preparedVolume := preparedVolume + outcome.volume;
          prepared := prepared + [Job(job.index, outcome.volume)];
        }
        noNewJob := false;
      } else {
        var sample := Sample(tcs[..], max, max - pendingVolume - preparedVolume);
        if sample.None? {
          step := NoFit;
          noNewJob := true;
        } else {
          var i := sample.value;
          var accepted: bool := *;
          step := Start(i, accepted);
          var volume := tcs[i].volume;
          tcs[i] := tcs[i].(volume := U64_MAX);
          if accepted {
            pendingVolume := pendingVolume + volume;
            pending := pending + [Job(i, volume)];
          }
        }
      }
      StepDecreases(s, max, step);
      RunExtends(input, max, steps, step);
      s := Next(s, max, step);
      steps := steps + [step];
    }
    RunsAreSafe(input, max, steps);
    if max == 0 {
      RunIsEmpty(input, steps);
    }
  }

  /** Without a volume budget the loop does nothing. */
  lemma RunIsEmpty(tcs: seq<Tcs>, steps: seq<Step>)
    requires After(tcs, 0, steps).Some?
    ensures steps == []
  {
    if steps != [] {
      RunsAreSafe(tcs, 0, steps[..|steps| - 1]);
    }
  }
}
