/** Properties of entry and exit sentry evaluation and of rule application. */
module SentryProperties {
  import opened Wrappers
  import opened CaseExecution
  import opened PlanItemBehavior

  /** With no applicable criteria, entry is satisfied whatever the satisfaction flag. */
  lemma UngatedEntryIsSatisfied(e: Execution, flag: bool)
    requires e.activity.Some?
    requires Sentries(ApplicableEntryCriteria(e, e.activity.value)) == []
    ensures IsAtLeastOneEntryCriterionSatisfied(e.(entrySatisfied := flag)) == Success(true)
  {
  }

  /** A repetition with non-empty repetition criteria is gated by them alone: the
      entry criteria of its activity make no difference. */
  lemma RepetitionCriteriaOverrideEntryCriteria(e: Execution, a: Activity, entry: Option<seq<Sentry>>)
    requires e.repetition && e.activity == Some(a)
    requires Sentries(a.repetitionCriteria) != []
    ensures IsAtLeastOneEntryCriterionSatisfied(e)
            == IsAtLeastOneEntryCriterionSatisfied(e.(activity := Some(a.(entryCriteria := entry))))
    ensures e.entrySatisfied || IsAtLeastOneEntryCriterionSatisfied(e) == Success(false)
  {
  }

  /** An execution that is not a repetition ignores the repetition criteria, and so
      does a repetition whose repetition criteria are null or empty. */
  lemma EntryCriteriaGateOtherwise(e: Execution, a: Activity)
    requires e.activity == Some(a)
    requires !e.repetition || Sentries(a.repetitionCriteria) == []
    ensures IsAtLeastOneEntryCriterionSatisfied(e)
            == Success(e.entrySatisfied || Sentries(a.entryCriteria) == [])
  {
  }

  /** A recorded entry satisfaction short-circuits the definition: it holds even for an
      execution without an activity, which otherwise is an error. */
  lemma EntryFlagShortCircuits(e: Execution)
    requires e.activity.None?
    ensures IsAtLeastOneEntryCriterionSatisfied(e.(entrySatisfied := true)) == Success(true)
    ensures IsAtLeastOneEntryCriterionSatisfied(e.(entrySatisfied := false)) == Failure(MissingActivity(e.id))
  {
  }

  /** Exit has no empty-criteria fallback: with no criteria declared for either, an
      execution with both flags unset may enter but is not exited. */
  lemma ExitIsOptIn(e: Execution, a: Activity)
    requires e.activity == Some(a)
    requires Sentries(a.entryCriteria) == [] && Sentries(a.repetitionCriteria) == []
    requires Sentries(a.exitCriteria) == []
    requires !e.entrySatisfied && !e.exitSatisfied
    ensures IsAtLeastOneEntryCriterionSatisfied(e) == Success(true)
    ensures !IsAtLeastOneExitCriterionSatisfied(e)
  {
  }

  /** Exit satisfaction does not depend on the activity at all. */
  lemma ExitIgnoresDefinition(e: Execution, a: Option<Activity>)
    ensures IsAtLeastOneExitCriterionSatisfied(e.(activity := a)) == IsAtLeastOneExitCriterionSatisfied(e)
  {
  }

  /** An absent required rule is not a false one: the flag keeps whatever value it had. */
  lemma AbsentRequiredRuleKeepsFlag(e: Execution, evaluate: (Rule, Execution) -> bool, flag: bool)
    requires e.activity.Some? && e.activity.value.requiredRule.None?
    ensures EvaluateRequiredRule(e.(required := flag), evaluate).required == flag
  {
  }

  /** Each rule writes its own flag only: the required rule never touches the
      repeatable flag, and the repetition rule never touches the required flag. */
  lemma RulesWriteSeparateFlags(e: Execution, evaluate: (Rule, Execution) -> bool)
    requires e.activity.Some?
    ensures EvaluateRequiredRule(e, evaluate).repeatable == e.repeatable
    ensures EvaluateRepetitionRule(e, evaluate).required == e.required
  {
  }

  /** A missing activity surfaces through the entry check exactly when the entry flag is
      unset: the activity lookup fails iff the unflagged entry check fails, and then with
      the same error. */
  lemma MissingActivitySurfacesThroughEntryCheck(e: Execution)
    ensures GetActivity(e).Failure? <==> IsAtLeastOneEntryCriterionSatisfied(e.(entrySatisfied := false)).Failure?
    ensures GetActivity(e).Failure? ==>
              IsAtLeastOneEntryCriterionSatisfied(e.(entrySatisfied := false)) == Failure(GetActivity(e).error)
    ensures IsAtLeastOneEntryCriterionSatisfied(e.(entrySatisfied := true)) == Success(true)
  {
  }
}
