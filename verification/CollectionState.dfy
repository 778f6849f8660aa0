/** The life of a vector collection under validation runs, real-source and controlled. */
module CollectionState {
  import opened Wrappers
  import opened SourceIntegrity

  datatype State = Building | Validating | Ready | Active | Failed

  /** The embedding space's transition table; staying put is always allowed. */
  predicate Allowed(from: State, to: State) {
    || from == to
    || (from == Building && to in {Validating, Failed})
    || (from == Validating && to in {Ready, Failed})
    || (from == Ready && to in {Active, Failed})
    || (from == Active && to in {Ready, Failed})
  }

  ghost const TRANSITIONS: set<(State, State)> := {
    (Building, Validating), (Building, Failed), (Validating, Ready), (Validating, Failed), (Ready, Active),
    (Ready, Failed), (Active, Ready), (Active, Failed)}

  /** The moves that are allowed, and what follows: nothing leads back to validation, nor out of FAILED. */
  lemma {:induction false} AllowedExactly(from: State, to: State)
    ensures Allowed(from, to) <==> to == from || (from, to) in TRANSITIONS
    ensures Allowed(from, to) && from in {Ready, Active, Failed} ==> to in {Ready, Active, Failed}
    ensures Allowed(Failed, to) ==> to == Failed
  {}

  /**
   What a real-source run reads, against the configured `required` vector size; `answered` says that none
   of its requests and queries fails.
   */
  datatype Evidence = Evidence(
    answered: bool, required: nat, expectedCount: nat, sourceCount: nat, contentCount: nat,
    bindingDimensions: Option<nat>, vectorSize: nat, sources: seq<Source>, points: seq<Point>, shopIds: set<string>)

  /**
   One validation run and how it comes out. A run may throw before its `try`. A controlled run may have a
   contract that is refused, may find its provider not calibrated, and otherwise must also pass the
   semantic and tenant gate.
   */
  datatype Run =
    | RealSource(starts: bool, evidence: Evidence)
    | Controlled(starts: bool, contract: bool, checks: bool, calibrated: bool, gate: bool)

  datatype Outcome = Passed | CalibrationRequired | Threw

  /** The counts agree and points and sources correspond one to one. */
  ghost predicate Sound(e: Evidence) {
    && e.answered && e.sourceCount == e.expectedCount && e.contentCount == e.expectedCount
    && |e.points| == e.expectedCount && |e.sources| == e.expectedCount
    && e.bindingDimensions == Some(e.required) && e.vectorSize == e.required && e.shopIds != {}
    && OneToOne(e.sources, e.points) && PointsSound(e.points, e.shopIds)
  }

  ghost predicate AllPassed(run: Run) {
    match run
    case RealSource(starts, evidence) => starts && Sound(evidence)
    case Controlled(starts, contract, checks, calibrated, gate) => starts && contract && checks && calibrated && gate
  }

  /** The run ends with a verdict: it starts, and does not return early for a provider without calibration. */
  ghost predicate Decisive(run: Run) {
    run.starts && (run.RealSource? || !run.contract || !run.checks || run.calibrated)
  }

  class Collection {
    var state: State

    constructor (state: State)
      ensures this.state == state
    {
      this.state := state;
    }

    method SetState(to: State) returns (ok: bool)
      modifies this`state
      ensures ok <==> to == old(state) || (old(state), to) in TRANSITIONS
      ensures state == if ok then to else old(state)
    {
      AllowedExactly(state, to);
      ok := Allowed(state, to);
      if ok { state := to; }
    }

    /** The error handler of both validators. */
    method Fail()
      modifies this`state
      ensures state == if old(state) in {Building, Validating} then Failed else old(state)
    {
      if state == Building || state == Validating {
        var _ := SetState(Failed);
      }
    }

    method ValidateRealSource(starts: bool, e: Evidence) returns (outcome: Outcome)
      modifies this`state
      ensures state == After(old(state), RealSource(starts, e))
      ensures outcome == if AllPassed(RealSource(starts, e)) then Passed else Threw
    {
      if !starts { return Threw; }
      if state == Building { var _ := SetState(Validating); }
      var sound := CheckEvidence(e);
      if !sound {
        Fail();
        return Threw;
      }
      if state == Validating { var _ := SetState(Ready); }
      outcome := Passed;
    }

    method ValidateControlled(starts: bool, contract: bool, checks: bool, calibrated: bool, gate: bool)
      returns (outcome: Outcome)
      modifies this`state
      ensures state == After(old(state), Controlled(starts, contract, checks, calibrated, gate))
      ensures outcome == if !starts || !contract || !checks then Threw else if !calibrated then CalibrationRequired
                         else if gate then Passed else Threw
    {
      if !starts { return Threw; }
      if !contract {
        Fail();
        return Threw;
      }
      if state == Building { var _ := SetState(Validating); }
      if !checks {
        Fail();
        return Threw;
      }
      if !calibrated { return CalibrationRequired; }
      if !gate {
        Fail();
        return Threw;
      }
      if state == Validating { var _ := SetState(Ready); }
      outcome := Passed;
    }
  }

  /** The checks of a real-source run, in order. */
  method CheckEvidence(e: Evidence) returns (sound: bool)
    ensures sound <==> Sound(e)
  {
    if !e.answered || e.sourceCount != e.expectedCount { return false; }
    if e.contentCount != e.expectedCount || |e.points| != e.expectedCount { return false; }
    if e.bindingDimensions != Some(e.required) || e.vectorSize != e.required { return false; }
    var checked :=
      AssertRealSourceIntegrity(e.sources, e.points, e.shopIds, e.expectedCount, e.bindingDimensions, e.required);
    sound := checked.Ok?;
  }

  /** The state a run leaves: undecided collections get the verdict, decided ones keep their state. */
  ghost function After(s: State, run: Run): State {
    if !run.starts || (s != Building && s != Validating) then s
    else if !Decisive(run) then Validating
    else if AllPassed(run) then Ready
    else Failed
  }

  ghost function AfterAll(s: State, runs: seq<Run>): State
    decreases |runs|
  {
    if runs == [] then s else AfterAll(After(s, runs[0]), runs[1..])
  }

  /** The first decisive run, or the number of runs. */
  ghost function FirstDecisive(runs: seq<Run>): (i: nat)
    ensures i <= |runs| && (i < |runs| ==> Decisive(runs[i])) && forall k | 0 <= k < i :: !Decisive(runs[k])
  {
    if runs == [] || Decisive(runs[0]) then 0 else 1 + FirstDecisive(runs[1..])
  }

  lemma {:induction false} DecidedStays(s: State, runs: seq<Run>)
    requires s != Building && s != Validating
    ensures AfterAll(s, runs) == s
    decreases |runs|
  {
    if runs != [] { DecidedStays(s, runs[1..]); }
  }

  /**
   Over any sequence of runs the first decisive one settles an undecided collection for good: it becomes
   READY exactly when every check of that run passed. A decided collection, READY included, never changes.
   */
  lemma {:induction false} FirstDecisiveRunSettles(s: State, runs: seq<Run>)
    ensures AfterAll(s, runs) ==
      if s != Building && s != Validating then s
      else if FirstDecisive(runs) == |runs| then (if exists run :: run in runs && run.starts then Validating else s)
      else if AllPassed(runs[FirstDecisive(runs)]) then Ready
      else Failed
    decreases |runs|
  {
    if runs != [] {
      var next := After(s, runs[0]);
      assert runs == [runs[0]] + runs[1..];
      if next == Building || next == Validating {
        FirstDecisiveRunSettles(next, runs[1..]);
      } else {
        DecidedStays(next, runs[1..]);
      }
    }
  }

  /** A collection that runs have made READY by a real-source run holds exactly one point for every source. */
  lemma {:induction false} ReadyMeansOneToOne(s: State, runs: seq<Run>)
    requires s in {Building, Validating} && AfterAll(s, runs) == Ready
    ensures var i := FirstDecisive(runs);
      && i < |runs|
      && (runs[i].RealSource? ==> OneToOne(runs[i].evidence.sources, runs[i].evidence.points))
      && (runs[i].Controlled? ==> runs[i].calibrated && runs[i].gate)
  {
    FirstDecisiveRunSettles(s, runs);
  }
}
