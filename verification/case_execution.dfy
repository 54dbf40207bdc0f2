/** The data a plan-item behavior reads and writes: case execution states, plan-item
    definitions (activities) and the case execution record. */
module CaseExecution {
  import opened Wrappers

  type Id = string

  /** The states of a case execution. `Suspending` and `Terminating` stand for the
      transient states that a suspend or terminate operation sets as soon as it begins
      (the engine distinguishes several variants of each, by cause; the behavior only
      asks whether an execution is in one of them). */
  datatype State =
    | New | Available | Enabled | Disabled | Active | Suspended
    | Terminated | Completed | Failed | Closed
    | Suspending | Terminating

  /** A sentry declaration. Its on-parts are evaluated by the event subsystem, which
      records the outcome as a flag on the execution; here only its presence in a
      criteria list matters. */
  datatype Sentry = Sentry(id: string)

  /** A required or repetition rule: a boolean expression over an execution. */
  datatype Rule = Rule(expression: string)

  /** A plan-item definition. Each criteria list, and each rule property, may be null. */
  datatype Activity = Activity(
    id: string,
    entryCriteria: Option<seq<Sentry>>,
    exitCriteria: Option<seq<Sentry>>,
    repetitionCriteria: Option<seq<Sentry>>,
    requiredRule: Option<Rule>,
    repetitionRule: Option<Rule>)

  /** A case execution: one instance of a plan item in the execution tree. `current`
      is the raw current state, `previous` the state recorded when a transient state
      was entered (null if none was recorded). */
  datatype Execution = Execution(
    id: Id,
    activity: Option<Activity>,
    parent: Option<Id>,
    current: State,
    previous: Option<State>,
    required: bool,
    repeatable: bool,
    repetition: bool,
    entrySatisfied: bool,
    exitSatisfied: bool)
  {
    /** The case instance is the root of the tree, the one execution without a parent. */
    predicate IsCaseInstanceExecution() { parent.None? }

    predicate IsTerminating() { current == Terminating }

    predicate IsSuspending() { current == Suspending }

    predicate IsAvailable() { current == Available }

    predicate IsActive() { current == Active }

    predicate IsClosed() { current == Closed }
  }

  /** A freshly created child execution: state NEW, no previous state, all flags unset. */
  function NewExecution(id: Id, activity: Option<Activity>, parent: Id): Execution
  {
    Execution(id, activity, Some(parent), New, None, false, false, false, false, false)
  }

  /** The exceptions a plan-item behavior throws, with the data their messages carry. */
  datatype BehaviorError =
    | AlreadyInState(transition: string, execution: Id, target: State)
    | UnexpectedState(transition: string, execution: Id, expected: State, actual: Option<State>)
    | AlreadyClosed(transition: string, execution: Id)
    | WrongState(transition: string, execution: Id)
    | NotCaseInstance(transition: string, execution: Id)
    | ImpossibleTransition(transition: string, execution: Id)
    | MissingActivity(execution: Id)

  /** The sentries of a criteria list, a null list read as an empty one. */
  function Sentries(criteria: Option<seq<Sentry>>): seq<Sentry>
  {
    if criteria.Some? then criteria.value else []
  }
}
