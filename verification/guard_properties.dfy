/** Properties of the transition guard and of the checks built on it. */
module GuardProperties {
  import opened Wrappers
  import opened CaseExecution
  import opened PlanItemBehavior

  /** While suspending or terminating, the guard's verdict depends on the recorded
      previous state alone: two such executions with the same id and previous state
      get the same verdict, whatever their raw current states. */
  lemma GuardIgnoresRawStateWhileTransient(e1: Execution, e2: Execution, expected: State, target: State, transition: string)
    requires e1.IsSuspending() || e1.IsTerminating()
    requires e2.IsSuspending() || e2.IsTerminating()
    requires e1.id == e2.id && e1.previous == e2.previous
    ensures EnsureTransitionAllowed(e1, expected, target, transition)
            == EnsureTransitionAllowed(e2, expected, target, transition)
  {
  }

  /** A suspension re-issued while an execution is already suspending from ACTIVE is
      let through: the guard sees ACTIVE, which is the expected state and not the
      target. The guard alone does not detect this re-entry. */
  lemma SuspendingFromActivePassesSuspendGuard(e: Execution)
    requires e.current == Suspending && e.previous == Some(Active)
    ensures EnsureTransitionAllowed(e, Active, Suspended, "suspend") == Pass
  {
  }

  /** The other branch: a suspending execution whose previous state was SUSPENDED is
      rejected as already suspended, not as being in an unexpected state. */
  lemma SuspendingFromSuspendedFailsAsAlreadySuspended(e: Execution)
    requires e.current == Suspending && e.previous == Some(Suspended)
    ensures EnsureTransitionAllowed(e, Active, Suspended, "suspend")
            == Fail(AlreadyInState("suspend", e.id, Suspended))
  {
  }

  /** A suspending or terminating execution with no recorded previous state fails every guard as
      being in an unexpected (null) state. */
  lemma TransientWithoutPreviousFailsAsUnexpected(e: Execution, expected: State, target: State, transition: string)
    requires e.IsSuspending() || e.IsTerminating()
    requires e.previous.None?
    ensures EnsureTransitionAllowed(e, expected, target, transition)
            == Fail(UnexpectedState(transition, e.id, expected, None))
  {
  }

  /** A guard from a state to itself never passes. */
  lemma SelfTransitionNeverAllowed(e: Execution, s: State, transition: string)
    ensures EnsureTransitionAllowed(e, s, s, transition).Fail?
  {
  }

  /** Unlike the guard, closing reads the raw current state: a terminating case
      instance passes the close check even when it was ACTIVE before. */
  lemma CloseReadsRawState(e: Execution)
    requires e.parent.None? && e.current == Terminating && e.previous == Some(Active)
    ensures OnClose(e) == Pass
    ensures EnsureTransitionAllowed(e, Completed, Closed, "close").Fail?
  {
  }

  /** Closing is refused to a non-root execution in every state. */
  lemma CloseRefusedBelowRoot(e: Execution, s: State)
    requires e.parent.Some?
    ensures OnClose(e.(current := s)) == Fail(NotCaseInstance("close", e.id))
  {
  }

  /** Resumption never re-runs `created` for an execution in a transient state. */
  lemma TransientResumeDoesNotRecreate(e: Execution)
    requires e.IsSuspending() || e.IsTerminating()
    ensures !Resumed(e)
  {
  }

  /** The two root checks are complementary: an execution passes the check that it is
      not the case instance exactly when closing it is refused for not being one. */
  lemma RootChecksAreComplementary(e: Execution, transition: string)
    ensures EnsureNotCaseInstance(e, transition).Pass? <==> OnClose(e) == Fail(NotCaseInstance("close", e.id))
    ensures EnsureNotCaseInstance(e, transition).Fail? <==> OnClose(e) != Fail(NotCaseInstance("close", e.id))
  {
  }
}
