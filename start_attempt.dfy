/** The quiz attempt widget: a count of attempts left and whether a quiz is in
    progress, changed by three buttons that are disabled in some states. */
module StartAttempt {

  datatype AttemptState = AttemptState(attempts: int, inProgress: bool)

  /** The three buttons. */
  datatype Action = StartQuiz | StopQuiz | Mulligan

  /** Four attempts, no quiz in progress. */
  const Initial := AttemptState(4, false)

  /** A button can be pressed when it is not `disabled`. */
  predicate Enabled(s: AttemptState, a: Action) {
    match a
    case StartQuiz => !(s.inProgress || s.attempts == 0)
    case StopQuiz => s.inProgress
    case Mulligan => !s.inProgress
  }

  /** What each button's click handler does. */
  function Step(s: AttemptState, a: Action): AttemptState {
    match a
    case StartQuiz => AttemptState(s.attempts - 1, true)
    case StopQuiz => s.(inProgress := false)
    case Mulligan => s.(attempts := s.attempts + 1)
  }

  /** Every action of the list is enabled when it is pressed. */
  predicate EnabledRun(s: AttemptState, actions: seq<Action>)
    decreases |actions|
  {
    actions == [] || (Enabled(s, actions[0]) && EnabledRun(Step(s, actions[0]), actions[1..]))
  }

  /** The state after pressing the buttons in order. */
  function Run(s: AttemptState, actions: seq<Action>): AttemptState
    decreases |actions|
  {
    if actions == [] then s else Run(Step(s, actions[0]), actions[1..])
  }

  /** Start needs a non-zero count and lowers it by one, so a count that starts
      non-negative stays non-negative under any presses of enabled buttons. */
  lemma {:induction false} AttemptsStayNonNegative(s: AttemptState, actions: seq<Action>)
    requires s.attempts >= 0
    requires EnabledRun(s, actions)
    ensures Run(s, actions).attempts >= 0
    decreases |actions|
  {
    if actions != [] {
      AttemptsStayNonNegative(Step(s, actions[0]), actions[1..]);
    }
  }

  /** From the initial state the count of attempts left is never negative. */
  lemma ReachableAttemptsNonNegative(actions: seq<Action>)
    requires EnabledRun(Initial, actions)
    ensures Run(Initial, actions).attempts >= 0
  {
    AttemptsStayNonNegative(Initial, actions);
  }

  /** While a quiz is in progress only Stop is enabled, so the count cannot change. */
  lemma AttemptsFrozenInProgress(s: AttemptState, a: Action)
    requires s.inProgress && Enabled(s, a)
    ensures a == StopQuiz
    ensures Step(s, a).attempts == s.attempts
  {
  }

  /** The widget's state. */
  class AttemptTracker {
    var attempts: int
    var inProgress: bool

    function State(): AttemptState
      reads this
    {
      AttemptState(attempts, inProgress)
    }

    ghost predicate Valid()
      reads this
    {
      attempts >= 0
    }

    constructor ()
      ensures State() == Initial && Valid()
    {
      attempts := 4;
      inProgress := false;
    }

    /** "Start Quiz": disabled while in progress or with no attempts left. */
    method StartQuiz()
      requires Valid()
      requires !inProgress && attempts != 0
      modifies this
      ensures Valid()
      ensures attempts == old(attempts) - 1 && inProgress
      ensures State() == Step(old(State()), Action.StartQuiz)
    {
      attempts := attempts - 1;
      inProgress := true;
    }

    /** "Stop Quiz": disabled unless in progress. */
    method StopQuiz()
      requires Valid()
      requires inProgress
      modifies this
      ensures Valid()
      ensures attempts == old(attempts) && !inProgress
      ensures State() == Step(old(State()), Action.StopQuiz)
    {
      inProgress := false;
    }

    /** "Mulligan": disabled while in progress. */
    method Mulligan()
      requires Valid()
      requires !inProgress
      modifies this
      ensures Valid()
      ensures attempts == old(attempts) + 1 && inProgress == old(inProgress)
      ensures State() == Step(old(State()), Action.Mulligan)
    {
      attempts := attempts + 1;
    }
  }
}
