# Plan-item lifecycle checks of the CMMN engine, in Dafny

This project models `PlanItemDefinitionActivityBehavior`, the base class of every
plan-item behavior (stage, task, milestone, ...) in the case-execution engine. The
class holds the lifecycle logic that all plan items share:

- **Sentry evaluation.** Entry is satisfied when the execution's entry flag is set, or when no
  criteria gate it. A repetition is gated by the activity's repetition criteria, if it declares
  any; every other execution is gated by its entry criteria. Exit is satisfied exactly when the
  exit flag is set.
- **Rule application.** A declared required rule overwrites the execution's `required` flag, and a
  declared repetition rule overwrites its `repeatable` flag. When no rule is declared, the flag
  keeps its value.
- **The transition guard.** The guard judges the *effective* state. While an execution is
  suspending or terminating, that is the state recorded before the transient state; otherwise it
  is the current state. The guard rejects a transition whose target is already the effective
  state. Failing that, it rejects a transition whose expected state is not the effective state.
- **Create and close preconditions.** Creation is guarded NEW → AVAILABLE. Only the case instance
  may be closed, and only when it is neither closed nor active.
- **Resumption.** Resuming re-runs `created` only for an AVAILABLE execution.
- **Repetition.** A repeatable execution gets one new sibling: same activity, same parent, flagged
  as a repetition. The new sibling alone is handed to the parent's lifecycle trigger.

Modules:

- `Wrappers` (`wrappers.dfy`): `Option` for nullable references, `Outcome` and `Result` for
  checks and computations that may throw.
- `CaseExecution` (`case_execution.dfy`): states, sentries, rules, the activity (plan-item
  definition), the execution record and the error kinds.
- `ExecutionTree` (`execution_tree.dfy`): the part of the execution tree that repetition uses. It
  is a map from id to execution plus each parent's ordered child list, with shape invariants and
  the contract of creating one child.
- `PlanItemBehavior` (`plan_item_behavior.dfy`): the class's methods as pure functions.
- `GuardProperties`, `SentryProperties`, `RepeatProperties`: lemmas relating the functions.

Every check is a pure function. It returns `Pass`, a value, or the error the Java method throws,
and it never returns a changed execution. So a failed check cannot have changed anything.

Modelling decisions:

- **Transient states.** The raw state enum holds the stable states plus one `Suspending` and one
  `Terminating` value. The engine has several variants of each, distinguished by cause; the guard
  only asks whether an execution is in one of them.
- **Previous state.** `previous` is an `Option`, because the Java field may be null. A transient
  execution with no previous state fails every guard as unexpected, with a null actual state.
- **Raw vs effective state.** `isClosed`, `isActive` and `isAvailable` read the raw current state,
  not the effective one. `GuardProperties.CloseReadsRawState` shows where this makes the close
  check and the guard disagree.
- **Case instance.** The case instance is the root execution, the one without a parent. The
  engine's execution class, which defines `isCaseInstanceExecution`, is not part of this model.
- **Inputs from outside.** The rule language is the parameter `evaluate`. The new child's id is
  the parameter `newId`, since id generation happens in the execution tree.
- **Crashing dereferences.** A null activity in rule application, or a null parent in `repeat`,
  dereferences null in the source. These are stated as `requires`.

Facts about the code worth knowing when reading the model:

- **Re-suspending from ACTIVE passes the guard.** A suspend re-issued while an execution is
  SUSPENDING from ACTIVE is let through: the effective state is ACTIVE, which is the expected
  state and not the target. The guard alone does not detect this re-entry (see
  `GuardProperties.SuspendingFromActivePassesSuspendGuard`).
- **Close does not set the state.** `onClose` only checks its preconditions; the state change to
  CLOSED is made elsewhere, so `PlanItemBehavior.OnClose` returns a check outcome, not a new
  execution.
- **Only the negative root check exists.** The class checks that an execution is *not* the case
  instance (`ensureNotCaseInstance`); it has no check that one *is*.

## Model

| member | source | states |
|---|---|---|
| PlanItemBehavior.GetActivity | engine/src/main/java/org/camunda/bpm/engine/impl/cmmn/behavior/PlanItemDefinitionActivityBehavior.java:241-247 | yields the activity exactly when the execution has one, and otherwise fails with a missing-activity error for that execution |
| PlanItemBehavior.IsAtLeastOneEntryCriterionSatisfied | engine/src/main/java/org/camunda/bpm/engine/impl/cmmn/behavior/PlanItemDefinitionActivityBehavior.java:49-65 | a set entry flag gives true without reading the activity; otherwise it fails exactly when the activity is missing; otherwise it is true iff the applicable criteria list is null or empty |
| PlanItemBehavior.IsAtLeastOneExitCriterionSatisfied | engine/src/main/java/org/camunda/bpm/engine/impl/cmmn/behavior/PlanItemDefinitionActivityBehavior.java:67-69 | true iff the exit flag is set; declared exit criteria play no part |
| PlanItemBehavior.EvaluateRequiredRule | engine/src/main/java/org/camunda/bpm/engine/impl/cmmn/behavior/PlanItemDefinitionActivityBehavior.java:73-82 | with no required rule the execution is unchanged; with one, `required` becomes the rule's value; no other field ever changes |
| PlanItemBehavior.EvaluateRepetitionRule | engine/src/main/java/org/camunda/bpm/engine/impl/cmmn/behavior/PlanItemDefinitionActivityBehavior.java:84-93 | with no repetition rule the execution is unchanged; with one, `repeatable` becomes the rule's value; no other field ever changes |
| PlanItemBehavior.EnsureTransitionAllowed | engine/src/main/java/org/camunda/bpm/engine/impl/cmmn/behavior/PlanItemDefinitionActivityBehavior.java:210-232 | passes iff the effective state equals the expected state and differs from the target; an effective state equal to the target fails as already-in-state, even if it also differs from the expected state; any other state fails as unexpected and carries the effective state |
| PlanItemBehavior.EnsureNotCaseInstance | engine/src/main/java/org/camunda/bpm/engine/impl/cmmn/behavior/PlanItemDefinitionActivityBehavior.java:234-239 | passes iff the execution has a parent; the case instance fails with an impossible-transition error |
| PlanItemBehavior.OnCreate | engine/src/main/java/org/camunda/bpm/engine/impl/cmmn/behavior/PlanItemDefinitionActivityBehavior.java:97-100 | creation passes iff the effective state is NEW; an effective AVAILABLE fails as already-in-state |
| PlanItemBehavior.OnClose | engine/src/main/java/org/camunda/bpm/engine/impl/cmmn/behavior/PlanItemDefinitionActivityBehavior.java:125-140 | passes iff the execution is the case instance and its raw state is neither CLOSED nor ACTIVE; a non-root fails as not-a-case-instance, a closed root as already-closed, an active root as wrong-state |
| PlanItemBehavior.Resumed | engine/src/main/java/org/camunda/bpm/engine/impl/cmmn/behavior/PlanItemDefinitionActivityBehavior.java:172-178 | `created` is re-run iff the raw current state is AVAILABLE |
| PlanItemBehavior.Repeat | engine/src/main/java/org/camunda/bpm/engine/impl/cmmn/behavior/PlanItemDefinitionActivityBehavior.java:188-206 | a non-repeatable execution leaves the tree unchanged and triggers nothing; a repeatable one adds exactly the new id, as a NEW repetition of the same activity under the same parent, appended to that parent's children, changes no other execution or child list, and triggers exactly the new id |
| ExecutionTree.CreateChildExecution | engine/src/main/java/org/camunda/bpm/engine/impl/cmmn/behavior/PlanItemDefinitionActivityBehavior.java:196-197 | returns the one-element list of the new id; the new execution is NEW with the given activity and parent; it is appended to the parent's children; nothing else changes |
| ExecutionTree.CreateChildPreservesWellFormed | engine/src/main/java/org/camunda/bpm/engine/impl/cmmn/behavior/PlanItemDefinitionActivityBehavior.java:196 | creating a child under a parent in the tree keeps ids, parent links, duplicate-free child lists and the single root consistent |
| GuardProperties.GuardIgnoresRawStateWhileTransient | engine/src/main/java/org/camunda/bpm/engine/impl/cmmn/behavior/PlanItemDefinitionActivityBehavior.java:213-221 | for suspending or terminating executions, the verdict depends only on the previous state, never on the raw current state |
| GuardProperties.SuspendingFromActivePassesSuspendGuard | engine/src/main/java/org/camunda/bpm/engine/impl/cmmn/behavior/PlanItemDefinitionActivityBehavior.java:213-231 | SUSPENDING with previous state ACTIVE passes the ACTIVE → SUSPENDED guard |
| GuardProperties.SuspendingFromSuspendedFailsAsAlreadySuspended | engine/src/main/java/org/camunda/bpm/engine/impl/cmmn/behavior/PlanItemDefinitionActivityBehavior.java:219-225 | SUSPENDING with previous state SUSPENDED fails the ACTIVE → SUSPENDED guard as already-in-state |
| GuardProperties.TransientWithoutPreviousFailsAsUnexpected | engine/src/main/java/org/camunda/bpm/engine/impl/cmmn/behavior/PlanItemDefinitionActivityBehavior.java:219-231 | a transient execution with a null previous state fails every guard as unexpected, with a null actual state |
| GuardProperties.SelfTransitionNeverAllowed | engine/src/main/java/org/camunda/bpm/engine/impl/cmmn/behavior/PlanItemDefinitionActivityBehavior.java:224-231 | no transition whose expected state equals its target ever passes |
| GuardProperties.CloseReadsRawState | engine/src/main/java/org/camunda/bpm/engine/impl/cmmn/behavior/PlanItemDefinitionActivityBehavior.java:127-135 | a terminating case instance that was ACTIVE passes the close check, although the guard would judge it by its previous state |
| GuardProperties.CloseRefusedBelowRoot | engine/src/main/java/org/camunda/bpm/engine/impl/cmmn/behavior/PlanItemDefinitionActivityBehavior.java:127-139 | closing a non-root execution fails as not-a-case-instance in every state |
| GuardProperties.TransientResumeDoesNotRecreate | engine/src/main/java/org/camunda/bpm/engine/impl/cmmn/behavior/PlanItemDefinitionActivityBehavior.java:172-178 | resuming a suspending or terminating execution never re-runs `created` |
| GuardProperties.RootChecksAreComplementary | engine/src/main/java/org/camunda/bpm/engine/impl/cmmn/behavior/PlanItemDefinitionActivityBehavior.java:234-239 | for every execution, `ensureNotCaseInstance` passes exactly when closing is refused as not-a-case-instance, and fails exactly when it is not |
| SentryProperties.UngatedEntryIsSatisfied | engine/src/main/java/org/camunda/bpm/engine/impl/cmmn/behavior/PlanItemDefinitionActivityBehavior.java:56-64 | with a null or empty applicable criteria list, entry is satisfied whatever the entry flag |
| SentryProperties.RepetitionCriteriaOverrideEntryCriteria | engine/src/main/java/org/camunda/bpm/engine/impl/cmmn/behavior/PlanItemDefinitionActivityBehavior.java:56-62 | a repetition with non-empty repetition criteria gets the same answer whatever its entry criteria; without the flag, its entry is unsatisfied |
| SentryProperties.EntryCriteriaGateOtherwise | engine/src/main/java/org/camunda/bpm/engine/impl/cmmn/behavior/PlanItemDefinitionActivityBehavior.java:56-64 | a non-repetition, or a repetition without repetition criteria, is satisfied iff its flag is set or its entry criteria are null or empty |
| SentryProperties.EntryFlagShortCircuits | engine/src/main/java/org/camunda/bpm/engine/impl/cmmn/behavior/PlanItemDefinitionActivityBehavior.java:50-54 | with the entry flag set, even an execution without an activity is satisfied; with it unset, that execution fails as missing its activity |
| SentryProperties.ExitIsOptIn | engine/src/main/java/org/camunda/bpm/engine/impl/cmmn/behavior/PlanItemDefinitionActivityBehavior.java:49-69 | with no criteria declared and no flags set, entry is satisfied and exit is not |
| SentryProperties.ExitIgnoresDefinition | engine/src/main/java/org/camunda/bpm/engine/impl/cmmn/behavior/PlanItemDefinitionActivityBehavior.java:67-69 | exit satisfaction is the same whatever the execution's activity |
| SentryProperties.AbsentRequiredRuleKeepsFlag | engine/src/main/java/org/camunda/bpm/engine/impl/cmmn/behavior/PlanItemDefinitionActivityBehavior.java:76-81 | an absent required rule keeps `required` at its prior value, true or false |
| SentryProperties.RulesWriteSeparateFlags | engine/src/main/java/org/camunda/bpm/engine/impl/cmmn/behavior/PlanItemDefinitionActivityBehavior.java:73-93 | the required rule never changes `repeatable`, and the repetition rule never changes `required` |
| SentryProperties.MissingActivitySurfacesThroughEntryCheck | engine/src/main/java/org/camunda/bpm/engine/impl/cmmn/behavior/PlanItemDefinitionActivityBehavior.java:241-247 | the activity lookup fails exactly when the entry check with an unset flag fails, and with the same missing-activity error; with the flag set, the entry check never fails |
| RepeatProperties.MarkRepetitionPreservesWellFormed | engine/src/main/java/org/camunda/bpm/engine/impl/cmmn/behavior/PlanItemDefinitionActivityBehavior.java:199-201 | flagging an execution that has a parent as a repetition keeps the tree well formed |
| RepeatProperties.RepeatPreservesWellFormed | engine/src/main/java/org/camunda/bpm/engine/impl/cmmn/behavior/PlanItemDefinitionActivityBehavior.java:188-206 | repetition keeps a well-formed tree well formed |
| RepeatProperties.RepeatAddsOneSibling | engine/src/main/java/org/camunda/bpm/engine/impl/cmmn/behavior/PlanItemDefinitionActivityBehavior.java:192-201 | for any selection of executions, the count among the parent's children grows by one if the new repetition is selected, and is otherwise unchanged |
| RepeatProperties.RepeatAddsOneInstanceOfActivity | engine/src/main/java/org/camunda/bpm/engine/impl/cmmn/behavior/PlanItemDefinitionActivityBehavior.java:192-201 | the parent gains exactly one child of the repeated activity and exactly one repetition |
| RepeatProperties.RepeatGrowsTreeByOne | engine/src/main/java/org/camunda/bpm/engine/impl/cmmn/behavior/PlanItemDefinitionActivityBehavior.java:196-197 | a repeatable execution's repetition grows the tree by exactly one execution |
| RepeatProperties.RepeatedInstanceCanBeCreated | engine/src/main/java/org/camunda/bpm/engine/impl/cmmn/behavior/PlanItemDefinitionActivityBehavior.java:201-204 | exactly one execution is triggered, and it passes the create guard; if the activity declares repetition criteria, its entry is unsatisfied |

## Left out

- `performTerminate`, `performParentTerminate`, `performExit`, `performSuspension`, `performParentSuspension`: each is a one-line delegation to the execution tree's recursive walks. Those walks are not part of this model.
- `execute`, `started`, `reactivated`, `creating`, `completing`, `manualCompleting`, `resuming`: these are no-ops here. Subclasses override them, and the subclasses are not part of this model.
- The `created` hook itself: subclasses define it. `PlanItemBehavior.Resumed` only states whether it is invoked.
- `CaseControlRule.evaluate` and its expression language: the model takes it as the uninterpreted parameter `evaluate`.
- The internals of `triggerChildExecutionsLifecycle`: `PlanItemBehavior.Repeat` returns the list handed to it. The state change to AVAILABLE is the trigger's job; `RepeatProperties.RepeatedInstanceCanBeCreated` proves the create guard lets that change through.
- `createChildExecutions` for lists of more than one activity: `repeat` only ever passes one, so only that case is modelled.
- Id generation: the new child's id is a parameter that is not yet in the tree.
- Exception and log message text: each error kind carries the data its message names (transition, execution id, states). The text itself is left out.
- The transient-state variants by cause (on suspension, on parent suspension, on exit, ...): they are collapsed into one `Suspending` and one `Terminating` state, because the guard only asks whether a state is one of them.
- Null activity in `evaluateRequiredRule` / `evaluateRepetitionRule`, and null parent in `repeat`: the source dereferences these without a check, so the model states them as preconditions instead of error paths.
- Persistence, cascades of same-trigger transitions, and re-entrancy across the tree: this class contains no cycle or depth policy to model.
