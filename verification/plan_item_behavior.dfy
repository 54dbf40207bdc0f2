/** The lifecycle checks every plan-item behavior shares: entry and exit sentry
    evaluation, required and repetition rule application, the create and close
    preconditions, resumption, repetition, and the transition guard. Each check is a
    pure function returning what the Java method returns or throws; none of them
    changes the execution, so a failed check leaves everything as it was. */
module PlanItemBehavior {
  import opened Wrappers
  import opened CaseExecution
  import opened ExecutionTree

  // sentries

  /** The activity of an execution, or the error thrown when it has none. */
  function GetActivity(e: Execution): (r: Result<Activity, BehaviorError>)
    ensures r.Success? <==> e.activity.Some?
    ensures r.Success? ==> e.activity == Some(r.value)
    ensures r.Failure? ==> r.error == MissingActivity(e.id)
  {
    match e.activity
    case Some(a) => Success(a)
    case None => Failure(MissingActivity(e.id))
  }

  /** The criteria that gate entry: a repetition is gated by the repetition criteria
      when that list is non-null and non-empty, every other execution by the entry
      criteria. */
  function ApplicableEntryCriteria(e: Execution, a: Activity): Option<seq<Sentry>>
  {
    if e.repetition && a.repetitionCriteria.Some? && a.repetitionCriteria.value != [] then
      a.repetitionCriteria
    else
      a.entryCriteria
  }

  /** Entry is satisfied when a sentry has already been recorded as satisfied, or when
      no sentry gates it at all. The activity is only looked up when the flag is unset. */
  function IsAtLeastOneEntryCriterionSatisfied(e: Execution): (r: Result<bool, BehaviorError>)
    ensures e.entrySatisfied ==> r == Success(true)
    ensures r.Failure? <==> !e.entrySatisfied && e.activity.None?
    ensures r.Failure? ==> r.error == MissingActivity(e.id)
    ensures r.Success? && !e.entrySatisfied ==>
              (r.value <==> Sentries(ApplicableEntryCriteria(e, e.activity.value)) == [])
  {
    if e.entrySatisfied then Success(true)
    else
      match GetActivity(e)
      case Failure(err) => Failure(err)
      case Success(a) =>
        var criteria := ApplicableEntryCriteria(e, a);
        Success(!(criteria.Some? && criteria.value != []))
  }

  /** Exit is satisfied exactly when a sentry has been recorded as satisfied; unlike
      entry, an execution without exit criteria is never exited by default. */
  function IsAtLeastOneExitCriterionSatisfied(e: Execution): (r: bool)
    ensures r <==> e.exitSatisfied
  {
    e.exitSatisfied
  }

  // rules

  /** Applies the required rule, if the activity declares one, with `evaluate` as the
      rule language: the rule's value becomes the required flag. */
  function EvaluateRequiredRule(e: Execution, evaluate: (Rule, Execution) -> bool): (r: Execution)
    requires e.activity.Some?
    ensures e.activity.value.requiredRule.None? ==> r == e
    ensures e.activity.value.requiredRule.Some? ==>
              r.required == evaluate(e.activity.value.requiredRule.value, e)
    ensures r.(required := e.required) == e
  {
    match e.activity.value.requiredRule
    case None => e
    case Some(rule) => e.(required := evaluate(rule, e))
  }

  /** Applies the repetition rule, if the activity declares one: the rule's value
      becomes the repeatable flag. */
  function EvaluateRepetitionRule(e: Execution, evaluate: (Rule, Execution) -> bool): (r: Execution)
    requires e.activity.Some?
    ensures e.activity.value.repetitionRule.None? ==> r == e
    ensures e.activity.value.repetitionRule.Some? ==>
              r.repeatable == evaluate(e.activity.value.repetitionRule.value, e)
    ensures r.(repeatable := e.repeatable) == e
  {
    match e.activity.value.repetitionRule
    case None => e
    case Some(rule) => e.(repeatable := evaluate(rule, e))
  }

  // transition guard

  /** The state the guard judges: while suspending or terminating, the state recorded
      before the transient state was entered; otherwise the current state. */
  function EffectiveState(e: Execution): Option<State>
  {
    if e.IsTerminating() || e.IsSuspending() then e.previous else Some(e.current)
  }

  /** Allows `transition` from `expected` to `target`: it is rejected as already done
      when the effective state is the target, and as unexpected when the effective
      state is anything but the expected one. The first check takes precedence. */
  function EnsureTransitionAllowed(e: Execution, expected: State, target: State, transition: string): (r: Outcome<BehaviorError>)
    ensures r.Pass? <==> EffectiveState(e) == Some(expected) && EffectiveState(e) != Some(target)
    ensures EffectiveState(e) == Some(target) ==> r == Fail(AlreadyInState(transition, e.id, target))
    ensures EffectiveState(e) != Some(target) && EffectiveState(e) != Some(expected) ==>
              r == Fail(UnexpectedState(transition, e.id, expected, EffectiveState(e)))
  {
    var current := EffectiveState(e);
    if current == Some(target) then Fail(AlreadyInState(transition, e.id, target))
    else if current != Some(expected) then Fail(UnexpectedState(transition, e.id, expected, current))
    else Pass
  }

  /** Rejects a transition the case instance itself cannot take. */
  function EnsureNotCaseInstance(e: Execution, transition: string): (r: Outcome<BehaviorError>)
    ensures r.Pass? <==> e.parent.Some?
    ensures r.Fail? ==> r.error == ImpossibleTransition(transition, e.id)
  {
    if e.IsCaseInstanceExecution() then Fail(ImpossibleTransition(transition, e.id)) else Pass
  }

  // creation and close

  /** The precondition of creation: the execution must (effectively) be NEW. The
      state change to AVAILABLE is made by the caller once this passes. */
  function OnCreate(e: Execution): (r: Outcome<BehaviorError>)
    ensures r.Pass? <==> EffectiveState(e) == Some(New)
    ensures EffectiveState(e) == Some(Available) ==> r == Fail(AlreadyInState("create", e.id, Available))
  {
    EnsureTransitionAllowed(e, New, Available, "create")
  }

  /** The precondition of closing: only the case instance may be closed, and only when
      it is neither closed already nor active. The checks read the raw current state. */
  function OnClose(e: Execution): (r: Outcome<BehaviorError>)
    ensures r.Pass? <==> e.parent.None? && e.current != Closed && e.current != Active
    ensures e.parent.Some? ==> r == Fail(NotCaseInstance("close", e.id))
    ensures e.parent.None? && e.current == Closed ==> r == Fail(AlreadyClosed("close", e.id))
    ensures e.parent.None? && e.current == Active ==> r == Fail(WrongState("close", e.id))
  {
    if e.IsCaseInstanceExecution() then
      if e.IsClosed() then Fail(AlreadyClosed("close", e.id))
      else if e.IsActive() then Fail(WrongState("close", e.id))
      else Pass
    else
      Fail(NotCaseInstance("close", e.id))
  }

  // resumption

  /** Whether resuming re-runs the `created` hook, which re-checks entry and exit
      criteria that may have been satisfied meanwhile. It does for an execution whose
      raw current state is AVAILABLE, and for no other. */
  function Resumed(e: Execution): (invokesCreated: bool)
    ensures invokesCreated <==> e.current == Available
  {
    e.IsAvailable()
  }

  // repetition

  /** The tree after a repetition, and the executions handed to the parent's lifecycle
      trigger (which drives each through creation). */
  datatype Repetition = Repetition(tree: Tree, triggered: seq<Id>)

  /** Repeats the execution `id`: if it is repeatable, one new execution of the same
      activity is created under the same parent with id `newId`, marked as a
      repetition, and handed alone to the lifecycle trigger; otherwise nothing happens. */
  function Repeat(t: Tree, id: Id, newId: Id): (r: Repetition)
    requires id in t.nodes
    requires newId !in t.nodes
    requires t.nodes[id].repeatable ==> t.nodes[id].parent.Some?
    ensures !t.nodes[id].repeatable ==> r.tree == t && r.triggered == []
    ensures t.nodes[id].repeatable ==>
              && r.triggered == [newId]
              && r.tree.nodes.Keys == t.nodes.Keys + {newId}
              && (forall other | other in t.nodes :: r.tree.nodes[other] == t.nodes[other])
              && r.tree.nodes[newId].parent == t.nodes[id].parent
              && r.tree.nodes[newId].activity == t.nodes[id].activity
              && r.tree.nodes[newId].repetition
              && r.tree.nodes[newId].current == New
              && ChildrenOf(r.tree, t.nodes[id].parent.value) == ChildrenOf(t, t.nodes[id].parent.value) + [newId]
              && (forall q | q != t.nodes[id].parent.value :: ChildrenOf(r.tree, q) == ChildrenOf(t, q))
  {
    var e := t.nodes[id];
    if !e.repeatable then Repetition(t, [])
    else
      var parent := e.parent.value;
      var created := CreateChildExecution(t, parent, e.activity, newId);
      var instance := created.created[0];
      var marked := created.tree.nodes[instance].(repetition := true);
      Repetition(created.tree.(nodes := created.tree.nodes[instance := marked]), created.created)
  }
}
