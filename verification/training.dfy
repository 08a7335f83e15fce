/** The training loop's schedule: when statistics are logged, when a
    checkpoint is saved and an evaluation pass runs, and what an epoch
    boundary does. */
module Training {
  import opened PyBuiltins

  /** The settings the training loop reads. */
  datatype HParams = HParams(numTrainSteps: int, stepsPerStats: int, stepsPerExternalEval: Option<int>)

  /** The outcome of one call of the training op: the new global step, or the
      end of the training data for this epoch. */
  datatype StepResult = Stepped(globalStep: int) | EndOfEpoch

  /** What the loop does, in order. */
  datatype Event =
    | InitialEvaluation           // evaluation before any step, then the iterator is initialised
    | EpochBoundary(step: int)    // checkpoint at `step`, evaluation, iterator initialised again
    | Stats(step: int)            // loss and time per step logged at `step`
    | ExternalEvaluation(step: int) // checkpoint at `step`, then evaluation

  /** The external evaluation interval: the configured one, or ten times the
      statistics interval when it is unset or zero. */
  function EvalInterval(hp: HParams): (n: int)
    ensures hp.stepsPerExternalEval.Some? && hp.stepsPerExternalEval.value != 0 ==> n == hp.stepsPerExternalEval.value
    ensures hp.stepsPerExternalEval.None? || hp.stepsPerExternalEval.value == 0 ==> n == 10 * hp.stepsPerStats
    ensures n == 0 <==> hp.stepsPerStats == 0 && (hp.stepsPerExternalEval.None? || hp.stepsPerExternalEval.value == 0)
  {
    match hp.stepsPerExternalEval
    case Some(n) => if n != 0 then n else 10 * hp.stepsPerStats
    case None => 10 * hp.stepsPerStats
  }

  /** `step % interval == 0` with Python's `%`, which raises on a zero interval. */
  function Fires(step: int, interval: int): (r: Result<bool>)
    ensures interval == 0 <==> r == Err(ZeroDivisionError)
    ensures interval != 0 ==> (r == Ok(true) <==> exists q :: step == q * interval)
  {
    if interval == 0 then Err(ZeroDivisionError)
    else
      PyModZeroIffMultiple(step, interval);
      Ok(PyMod(step, interval) == 0)
  }

  /** The events of the loop from `globalStep` on, consuming `results` one by
      one while the global step is below the number of training steps. */
  function Steps(globalStep: int, hp: HParams, results: seq<StepResult>): Log<Event>
    decreases |results|
  {
    if globalStep >= hp.numTrainSteps || results == [] then Finished([])
    else match results[0]
      case EndOfEpoch =>
        Steps(globalStep, hp, results[1..]).Prepend([EpochBoundary(globalStep)])
      case Stepped(s) =>
        match Fires(s, hp.stepsPerStats)
        case Err(e) => Raised([], e)
        case Ok(stats) =>
          var logged := if stats then [Stats(s)] else [];
          match Fires(s, EvalInterval(hp))
          case Err(e) => Raised(logged, e)
          case Ok(eval) =>
            Steps(s, hp, results[1..]).Prepend(logged + if eval then [ExternalEvaluation(s)] else [])
  }

  /** Everything the training driver does, from the first evaluation on. */
  function Train(globalStep: int, hp: HParams, results: seq<StepResult>): Log<Event> {
    Steps(globalStep, hp, results).Prepend([InitialEvaluation])
  }

  /** The training driver: evaluate once, then step until the global step
      reaches the configured number of steps. The training op's outcomes are
      the parameter `results`; the run stops early when they run out. */
  method RunTraining(globalStep0: int, hp: HParams, results: seq<StepResult>) returns (r: Log<Event>)
    ensures r == Train(globalStep0, hp, results)
  {
    var stepsPerStats := hp.stepsPerStats;
    var stepsPerExternalEval := if hp.stepsPerExternalEval.Some? then hp.stepsPerExternalEval.value else 0;
    if stepsPerExternalEval == 0 {
      stepsPerExternalEval := 10 * stepsPerStats;
    }
    assert stepsPerExternalEval == EvalInterval(hp);
    var events := [InitialEvaluation];
    var globalStep := globalStep0;
    var i := 0;
    while globalStep < hp.numTrainSteps && i < |results|
      invariant 0 <= i <= |results|
      invariant Train(globalStep0, hp, results) == Steps(globalStep, hp, results[i..]).Prepend(events)
      decreases |results| - i
    {
      assert results[i..][1..] == results[i + 1..];
      match results[i] {
        case EndOfEpoch =>
          Steps(globalStep, hp, results[i + 1..]).PrependTwice(events, [EpochBoundary(globalStep)]);
          events := events + [EpochBoundary(globalStep)];
        case Stepped(s) =>
          globalStep := s;
          if stepsPerStats == 0 {
            return Raised(events, ZeroDivisionError);
          }
          var logged := [];
          if PyMod(globalStep, stepsPerStats) == 0 {
            logged := [Stats(globalStep)];
          }
          if stepsPerExternalEval == 0 {
            return Raised(events + logged, ZeroDivisionError);
          }
          var evaluated := [];
          if PyMod(globalStep, stepsPerExternalEval) == 0 {
            evaluated := [ExternalEvaluation(globalStep)];
          }
          Steps(globalStep, hp, results[i + 1..]).PrependTwice(events, logged + evaluated);
          events := events + (logged + evaluated);
      }
      i := i + 1;
    }
    assert events + [] == events;
    r := Finished(events);
  }

  /** Statistics are logged only at global steps that are multiples of the
      statistics interval. */
  lemma {:induction false} StatsOnMultiples(globalStep: int, hp: HParams, results: seq<StepResult>, s: int)
    requires Stats(s) in Steps(globalStep, hp, results).items
    ensures hp.stepsPerStats != 0 && exists q :: s == q * hp.stepsPerStats
    decreases |results|
  {
    match results[0]
    case EndOfEpoch =>
      StatsOnMultiples(globalStep, hp, results[1..], s);
    case Stepped(t) =>
      if Stats(s) !in Steps(t, hp, results[1..]).items {
        assert s == t;
      } else {
        StatsOnMultiples(t, hp, results[1..], s);
      }
  }

  /** A checkpoint with an external evaluation happens only at global steps
      that are multiples of the external evaluation interval. */
  lemma {:induction false} EvaluationOnMultiples(globalStep: int, hp: HParams, results: seq<StepResult>, s: int)
    requires ExternalEvaluation(s) in Steps(globalStep, hp, results).items
    ensures EvalInterval(hp) != 0 && exists q :: s == q * EvalInterval(hp)
    decreases |results|
  {
    match results[0]
    case EndOfEpoch =>
      EvaluationOnMultiples(globalStep, hp, results[1..], s);
    case Stepped(t) =>
      if ExternalEvaluation(s) !in Steps(t, hp, results[1..]).items {
        assert s == t;
      } else {
        EvaluationOnMultiples(t, hp, results[1..], s);
      }
  }

  /** With the default interval, every step that gets an external evaluation
      also gets its statistics logged, just before it. */
  lemma DefaultEvaluationFollowsStats(step: int, hp: HParams)
    requires hp.stepsPerExternalEval.None? || hp.stepsPerExternalEval.value == 0
    requires Fires(step, EvalInterval(hp)) == Ok(true)
    ensures Fires(step, hp.stepsPerStats) == Ok(true)
  {
    var q :| step == q * EvalInterval(hp);
    assert step == (10 * q) * hp.stepsPerStats;
  }

  /** Every step reached that is a multiple of the statistics interval logs
      its statistics. */
  lemma StatsAtMultiples(globalStep: int, hp: HParams, s: int, rest: seq<StepResult>)
    requires globalStep < hp.numTrainSteps
    requires hp.stepsPerStats != 0 && PyMod(s, hp.stepsPerStats) == 0
    ensures Stats(s) in Steps(globalStep, hp, [Stepped(s)] + rest).items
  {
    assert ([Stepped(s)] + rest)[1..] == rest;
    assert Fires(s, hp.stepsPerStats) == Ok(true);
  }

  /** Every step reached that is a multiple of the external evaluation
      interval saves a checkpoint and runs an evaluation pass. */
  lemma EvaluationAtMultiples(globalStep: int, hp: HParams, s: int, rest: seq<StepResult>)
    requires globalStep < hp.numTrainSteps
    requires hp.stepsPerStats != 0 && PyMod(s, EvalInterval(hp)) == 0
    ensures ExternalEvaluation(s) in Steps(globalStep, hp, [Stepped(s)] + rest).items
  {
    assert ([Stepped(s)] + rest)[1..] == rest;
    assert Fires(s, EvalInterval(hp)) == Ok(true);
  }
}
