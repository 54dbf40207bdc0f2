/** The execution tree a behavior delegates to: executions by id, and each parent's
    ordered list of child ids. Only the part of its contract that repetition relies on
    is modelled: creating one child under a given parent. */
module ExecutionTree {
  import opened Wrappers
  import opened CaseExecution

  datatype Tree = Tree(nodes: map<Id, Execution>, children: map<Id, seq<Id>>)

  /** The ordered children of `p`; a parent with no recorded list has none. */
  function ChildrenOf(t: Tree, p: Id): seq<Id>
  {
    if p in t.children then t.children[p] else []
  }

  ghost predicate NoDuplicates(s: seq<Id>)
  {
    forall i, j | 0 <= i < j < |s| :: s[i] != s[j]
  }

  ghost predicate KeyedById(t: Tree)
  {
    forall id | id in t.nodes :: t.nodes[id].id == id
  }

  /** Every execution with a parent is listed among that parent's children. */
  ghost predicate ParentsListChildren(t: Tree)
  {
    forall id | id in t.nodes && t.nodes[id].parent.Some? ::
      t.nodes[id].parent.value in t.nodes && id in ChildrenOf(t, t.nodes[id].parent.value)
  }

  /** Every listed child is an execution whose parent is the listing one. */
  ghost predicate ChildrenPointToParent(t: Tree)
  {
    forall p, c | p in t.children && c in t.children[p] :: c in t.nodes && t.nodes[c].parent == Some(p)
  }

  ghost predicate ChildListsDistinct(t: Tree)
  {
    forall p | p in t.children :: NoDuplicates(t.children[p])
  }

  ghost predicate RepetitionsHaveParent(t: Tree)
  {
    forall id | id in t.nodes && t.nodes[id].repetition :: t.nodes[id].parent.Some?
  }

  /** At most one execution is the case instance (the root). */
  ghost predicate SingleRoot(t: Tree)
  {
    forall a, b | a in t.nodes && b in t.nodes
      && t.nodes[a].IsCaseInstanceExecution() && t.nodes[b].IsCaseInstanceExecution() :: a == b
  }

  /** The shape invariants the tree maintains. */
  ghost predicate WellFormed(t: Tree)
  {
    && KeyedById(t)
    && ParentsListChildren(t)
    && ChildrenPointToParent(t)
    && ChildListsDistinct(t)
    && RepetitionsHaveParent(t)
    && SingleRoot(t)
  }

  /** The new children a creation returns, and the tree after it. */
  datatype Created = Created(tree: Tree, created: seq<Id>)

  /** Creates one NEW child execution of `activity` under `parent`, with the id the
      tree's id generator supplies, appended to the parent's children. */
  function CreateChildExecution(t: Tree, parent: Id, activity: Option<Activity>, newId: Id): (r: Created)
    requires newId !in t.nodes
    ensures r.created == [newId]
    ensures r.tree.nodes.Keys == t.nodes.Keys + {newId}
    ensures forall id | id in t.nodes :: r.tree.nodes[id] == t.nodes[id]
    ensures r.tree.nodes[newId] == NewExecution(newId, activity, parent)
    ensures ChildrenOf(r.tree, parent) == ChildrenOf(t, parent) + [newId]
    ensures forall q | q != parent :: ChildrenOf(r.tree, q) == ChildrenOf(t, q)
  {
    var t' := Tree(t.nodes[newId := NewExecution(newId, activity, parent)],
                   t.children[parent := ChildrenOf(t, parent) + [newId]]);
    Created(t', [newId])
  }

  /** The number of executions among `ids` that `keep` selects. */
  function Count(nodes: map<Id, Execution>, ids: seq<Id>, keep: Execution -> bool): nat
  {
    if |ids| == 0 then 0
    else (if ids[0] in nodes && keep(nodes[ids[0]]) then 1 else 0) + Count(nodes, ids[1..], keep)
  }

  /** Appending one id adds one to the count exactly when it selects that execution. */
  lemma {:induction false} CountAppend(nodes: map<Id, Execution>, ids: seq<Id>, x: Id, keep: Execution -> bool)
    ensures Count(nodes, ids + [x], keep)
            == Count(nodes, ids, keep) + (if x in nodes && keep(nodes[x]) then 1 else 0)
  {
    if |ids| == 0 {
      assert ids + [x] == [x];
    } else {
      assert (ids + [x])[1..] == ids[1..] + [x];
      CountAppend(nodes, ids[1..], x, keep);
    }
  }

  /** The count only depends on the executions the listed ids name. */
  lemma {:induction false} CountFrame(nodes: map<Id, Execution>, nodes': map<Id, Execution>, ids: seq<Id>, keep: Execution -> bool)
    requires forall i | 0 <= i < |ids| :: ids[i] in nodes && ids[i] in nodes' && nodes[ids[i]] == nodes'[ids[i]]
    ensures Count(nodes', ids, keep) == Count(nodes, ids, keep)
  {
    if |ids| > 0 {
      assert forall i | 0 <= i < |ids[1..]| :: ids[1..][i] == ids[i + 1];
      CountFrame(nodes, nodes', ids[1..], keep);
    }
  }

  /** Creating a child keeps the tree well formed, as long as the parent is in it. */
  lemma CreateChildPreservesWellFormed(t: Tree, parent: Id, activity: Option<Activity>, newId: Id)
    requires WellFormed(t)
    requires parent in t.nodes
    requires newId !in t.nodes
    ensures WellFormed(CreateChildExecution(t, parent, activity, newId).tree)
  {
    var t' := CreateChildExecution(t, parent, activity, newId).tree;
    CreateChildListsParent(t, parent, activity, newId);
    CreateChildPointsToParent(t, parent, activity, newId);
    CreateChildKeepsListsDistinct(t, parent, activity, newId);
    assert KeyedById(t');
    assert RepetitionsHaveParent(t');
    assert SingleRoot(t');
  }

  lemma CreateChildListsParent(t: Tree, parent: Id, activity: Option<Activity>, newId: Id)
    requires ParentsListChildren(t)
    requires parent in t.nodes
    requires newId !in t.nodes
    ensures ParentsListChildren(CreateChildExecution(t, parent, activity, newId).tree)
  {
    var t' := CreateChildExecution(t, parent, activity, newId).tree;
    forall id | id in t'.nodes && t'.nodes[id].parent.Some?
      ensures t'.nodes[id].parent.value in t'.nodes
      ensures id in ChildrenOf(t', t'.nodes[id].parent.value)
    {
      if id != newId {
        var q := t.nodes[id].parent.value;
        assert id in ChildrenOf(t, q);
        assert ChildrenOf(t, q) <= ChildrenOf(t', q);
      }
    }
  }

  lemma CreateChildPointsToParent(t: Tree, parent: Id, activity: Option<Activity>, newId: Id)
    requires ChildrenPointToParent(t)
    requires newId !in t.nodes
    ensures ChildrenPointToParent(CreateChildExecution(t, parent, activity, newId).tree)
  {
    var t' := CreateChildExecution(t, parent, activity, newId).tree;
    forall p, c | p in t'.children && c in t'.children[p]
      ensures c in t'.nodes && t'.nodes[c].parent == Some(p)
    {
      assert t'.children[p] == ChildrenOf(t', p);
      if p == parent {
        assert c in ChildrenOf(t, parent) || c == newId;
      } else {
        assert c in t.children[p];
      }
    }
  }

  lemma CreateChildKeepsListsDistinct(t: Tree, parent: Id, activity: Option<Activity>, newId: Id)
    requires ChildrenPointToParent(t)
    requires ChildListsDistinct(t)
    requires newId !in t.nodes
    ensures ChildListsDistinct(CreateChildExecution(t, parent, activity, newId).tree)
  {
    var t' := CreateChildExecution(t, parent, activity, newId).tree;
    assert newId !in ChildrenOf(t, parent);
    forall p | p in t'.children
      ensures NoDuplicates(t'.children[p])
    {
      if p == parent {
        assert t'.children[p] == ChildrenOf(t, parent) + [newId];
      } else {
        assert t'.children[p] == t.children[p];
      }
    }
  }

  /** Two trees with the same ids, parent links and child lists: they differ at most in
      the states and flags of their executions. */
  ghost predicate SameShape(t: Tree, t': Tree)
  {
    && t'.nodes.Keys == t.nodes.Keys
    && t'.children == t.children
    && forall x | x in t.nodes :: t'.nodes[x].id == t.nodes[x].id && t'.nodes[x].parent == t.nodes[x].parent
  }

  /** The shape invariants other than the one about repetitions carry over between
      trees of the same shape. */
  lemma SameShapeKeepsLinks(t: Tree, t': Tree)
    requires SameShape(t, t')
    requires KeyedById(t) && ParentsListChildren(t) && ChildrenPointToParent(t)
    requires ChildListsDistinct(t) && SingleRoot(t)
    ensures KeyedById(t') && ParentsListChildren(t') && ChildrenPointToParent(t')
    ensures ChildListsDistinct(t') && SingleRoot(t')
  {
    SameShapeKeepsParentsListChildren(t, t');
  }

  lemma SameShapeKeepsParentsListChildren(t: Tree, t': Tree)
    requires SameShape(t, t')
    requires ParentsListChildren(t)
    ensures ParentsListChildren(t')
  {
    forall x | x in t'.nodes && t'.nodes[x].parent.Some?
      ensures t'.nodes[x].parent.value in t'.nodes && x in ChildrenOf(t', t'.nodes[x].parent.value)
    {
      assert x in t.nodes;
    }
  }
}
