/** Properties of repetition over a well-formed execution tree. */
module RepeatProperties {
  import opened Wrappers
  import opened CaseExecution
  import opened ExecutionTree
  import opened PlanItemBehavior

  /** Marking a child as a repetition keeps the tree well formed: apart from the
      repetition flag, the shape invariants only read ids and parent links. */
  lemma MarkRepetitionPreservesWellFormed(t: Tree, id: Id)
    requires WellFormed(t)
    requires id in t.nodes && t.nodes[id].parent.Some?
    ensures WellFormed(t.(nodes := t.nodes[id := t.nodes[id].(repetition := true)]))
  {
    var t' := t.(nodes := t.nodes[id := t.nodes[id].(repetition := true)]);
    assert SameShape(t, t');
    SameShapeKeepsLinks(t, t');
  }

  /** Repetition keeps the tree well formed. */
  lemma RepeatPreservesWellFormed(t: Tree, id: Id, newId: Id)
    requires WellFormed(t)
    requires id in t.nodes && newId !in t.nodes
    requires t.nodes[id].repeatable ==> t.nodes[id].parent.Some?
    ensures WellFormed(Repeat(t, id, newId).tree)
  {
    var e := t.nodes[id];
    if e.repeatable {
      var parent := e.parent.value;
      CreateChildPreservesWellFormed(t, parent, e.activity, newId);
      var created := CreateChildExecution(t, parent, e.activity, newId);
      MarkRepetitionPreservesWellFormed(created.tree, newId);
    }
  }

  /** Every child listed under a parent of a well-formed tree is an execution of it. */
  lemma ChildrenAreNodes(t: Tree, p: Id)
    requires ChildrenPointToParent(t)
    ensures forall i | 0 <= i < |ChildrenOf(t, p)| :: ChildrenOf(t, p)[i] in t.nodes
  {
    if p in t.children {
      forall i | 0 <= i < |t.children[p]|
        ensures t.children[p][i] in t.nodes
      {
        assert t.children[p][i] in t.children[p];
      }
    }
  }

  /** A repetition adds exactly one sibling: for any selection of executions, the
      number selected among the parent's children grows by one if the new repetition
      is selected, and stays the same otherwise. */
  lemma {:induction false} RepeatAddsOneSibling(t: Tree, id: Id, newId: Id, keep: Execution -> bool)
    requires WellFormed(t)
    requires id in t.nodes && newId !in t.nodes
    requires t.nodes[id].repeatable && t.nodes[id].parent.Some?
    ensures var r := Repeat(t, id, newId).tree;
            var p := t.nodes[id].parent.value;
            Count(r.nodes, ChildrenOf(r, p), keep)
            == Count(t.nodes, ChildrenOf(t, p), keep) + (if keep(r.nodes[newId]) then 1 else 0)
  {
    var r := Repeat(t, id, newId).tree;
    var p := t.nodes[id].parent.value;
    var before := ChildrenOf(t, p);
    ChildrenAreNodes(t, p);
    CountAppend(r.nodes, before, newId, keep);
    CountFrame(t.nodes, r.nodes, before, keep);
  }

  /** In particular, the parent gains exactly one execution of the repeated activity,
      and exactly one repetition. */
  lemma RepeatAddsOneInstanceOfActivity(t: Tree, id: Id, newId: Id)
    requires WellFormed(t)
    requires id in t.nodes && newId !in t.nodes
    requires t.nodes[id].repeatable && t.nodes[id].parent.Some?
    ensures var r := Repeat(t, id, newId).tree;
            var p := t.nodes[id].parent.value;
            var sameActivity := (x: Execution) => x.activity == t.nodes[id].activity;
            Count(r.nodes, ChildrenOf(r, p), sameActivity) == Count(t.nodes, ChildrenOf(t, p), sameActivity) + 1
    ensures var r := Repeat(t, id, newId).tree;
            var p := t.nodes[id].parent.value;
            var isRepetition := (x: Execution) => x.repetition;
            Count(r.nodes, ChildrenOf(r, p), isRepetition) == Count(t.nodes, ChildrenOf(t, p), isRepetition) + 1
  {
    RepeatAddsOneSibling(t, id, newId, (x: Execution) => x.activity == t.nodes[id].activity);
    RepeatAddsOneSibling(t, id, newId, (x: Execution) => x.repetition);
  }

  /** The tree grows by exactly one execution when the execution is repeatable. */
  lemma RepeatGrowsTreeByOne(t: Tree, id: Id, newId: Id)
    requires id in t.nodes && newId !in t.nodes
    requires t.nodes[id].repeatable && t.nodes[id].parent.Some?
    ensures |Repeat(t, id, newId).tree.nodes| == |t.nodes| + 1
  {
    var r := Repeat(t, id, newId).tree;
    assert r.nodes.Keys == t.nodes.Keys + {newId};
  }

  /** The execution handed to the lifecycle trigger passes the create guard, so the
      trigger can take it to AVAILABLE; and its entry is gated by the repetition
      criteria whenever the activity declares any. */
  lemma RepeatedInstanceCanBeCreated(t: Tree, id: Id, newId: Id)
    requires id in t.nodes && newId !in t.nodes
    requires t.nodes[id].repeatable && t.nodes[id].parent.Some?
    ensures var r := Repeat(t, id, newId);
            && |r.triggered| == 1
            && OnCreate(r.tree.nodes[r.triggered[0]]) == Pass
    ensures var r := Repeat(t, id, newId);
            var a := t.nodes[id].activity;
            a.Some? && Sentries(a.value.repetitionCriteria) != [] ==>
              IsAtLeastOneEntryCriterionSatisfied(r.tree.nodes[newId]) == Success(false)
  {
  }
}
