/** The walk as it runs: nodes, queue and visited set updated in place, visits charged to a shared budget. */
module Walker {
  import opened Options
  import opened Policy
  import opened Walk

  /** The visit budget one check shares across its root goals. */
  class Budget {
    var visited: nat
    const maxVisited: nat

    constructor (maxVisited: nat)
      ensures visited == 0 && this.maxVisited == maxVisited
    {
      this.visited, this.maxVisited := 0, maxVisited;
    }

    ghost predicate Valid()
      reads this
    {
      visited <= maxVisited
    }

    ghost function Left(): nat
      requires Valid()
      reads this
    {
      maxVisited - visited
    }

    method Spend() returns (ok: bool)
      requires Valid()
      modifies this
      ensures Valid()
      ensures ok <==> old(Left()) > 0
      ensures Left() == old(Left()) - if ok then 1 else 0
    {
      if visited >= maxVisited { return false; }
      visited := visited + 1;
      return true;
    }
  }

  function Range(lo: nat, hi: nat): seq<nat>
    requires lo <= hi
  {
    seq(hi - lo, i requires 0 <= i < hi - lo => lo + i)
  }

  class Walker {
    const policy: Policy
    const query: Query
    var nodes: seq<Node>
    var queue: seq<nat>
    var visited: set<Goal>
    /** How many nodes have left the queue. */
    ghost var head: nat

    constructor (policy: Policy, query: Query)
      ensures Valid() && nodes == [] && visited == {} && head == 0
      ensures this.policy == policy && this.query == query
    {
      this.policy, this.query := policy, query;
      nodes, queue, visited, head := [], [], {}, 0;
    }

    /** The queue is always the unvisited tail of the node list. */
    ghost predicate Valid()
      reads this
    {
      head <= |nodes| && queue == Range(head, |nodes|) && ParentsPrecede(nodes)
    }

    ghost function Now(): State
      reads this
    {
      State(nodes, visited)
    }

    method PushGoal(goal: Goal, parent: Option<nat>, depth: nat)
      requires Valid() && (parent.Some? ==> parent.value < |nodes|)
      modifies this
      ensures Valid() && head == old(head)
      ensures Now() == Push(old(Now()), query.maxDepth, goal, parent, depth)
    {
      if depth > query.maxDepth { return; }
      if goal in visited { return; }
      visited := visited + {goal};
      nodes := nodes + [Node(goal, parent, depth)];
      queue := queue + [|nodes| - 1];
    }

    /** Push the membership expansions of a plain subject. */
    method PushExpansions(o: ObjectRef, parent: nat, depth: nat)
      requires Valid() && parent < |nodes|
      modifies this
      ensures Valid() && head == old(head) && old(nodes) <= nodes
      ensures Now() == PushAll(old(Now()), query.maxDepth, Expansions(query.expand, o), parent, depth)
    {
      hide PushAll;
      var expand := query.expand;
      PushNone(Now(), query.maxDepth, parent, depth);
      for i := 0 to |expand|
        invariant Valid() && head == old(head) && old(nodes) <= nodes
        invariant Now() == PushAll(old(Now()), query.maxDepth, Expansions(expand[..i], o), parent, depth)
      {
        assert expand[..i + 1][..i] == expand[..i];
        PushOneMore(old(Now()), query.maxDepth, Expansions(expand[..i], o), Goal(expand[i], o), parent, depth);
        PushGoal(Goal(expand[i], o), Some(parent), depth);
      }
      assert expand[..|expand|] == expand;
    }

    /** The first loop of a visit: stop at a satisfying subject, push what the others lead to. */
    method VisitSubjects(goal: Goal, index: nat, depth: nat) returns (found: Option<SubjectRef>)
      requires Valid() && index < |nodes|
      modifies this
      ensures Valid() && head == old(head) && old(nodes) <= nodes
      ensures found.Some? <==> Succeeds(policy, query, goal)
      ensures found.Some? ==> found.value == FirstSatisfying(query, SubjectsFor(policy, goal.object_, goal.relation))
      ensures found.None? ==>
                Now() == PushAll(old(Now()), query.maxDepth,
                                 FromSubjects(query, SubjectsFor(policy, goal.object_, goal.relation)), index, depth)
    {
      hide Satisfies, PushAll, SubjectsFor;
      var ss := SubjectsFor(policy, goal.object_, goal.relation);
      PushNone(Now(), query.maxDepth, index, depth);
      for i := 0 to |ss|
        invariant Valid() && head == old(head) && old(nodes) <= nodes
        invariant forall j :: 0 <= j < i ==> !Satisfies(query, ss[j])
        invariant Now() == PushAll(old(Now()), query.maxDepth, FromSubjects(query, ss[..i]), index, depth)
      {
        var s := ss[i];
        FirstAt(query, ss, i);
        if SatisfiesNow(s) {
          return Some(s);
        }
        assert ss[..i + 1][..i] == ss[..i];
        PushAllAppends(old(Now()), query.maxDepth, FromSubjects(query, ss[..i]), FromSubject(query, s), index, depth);
        if s.relation.Some? {
          PushSingle(Now(), query.maxDepth, Goal(s.relation.value, s.object_), index, depth);
          PushGoal(Goal(s.relation.value, s.object_), Some(index), depth);
        } else {
          PushExpansions(s.object_, index, depth);
        }
      }
      assert ss[..|ss|] == ss;
      return None;
    }

    predicate SatisfiesNow(s: SubjectRef)
      ensures SatisfiesNow(s) == Satisfies(query, s)
    {
      s.relation.None? && Holds(query, s)
    }

    /** The second loop of a visit: the parents each applicable rewrite points at. */
    method VisitRewrites(goal: Goal, index: nat, depth: nat)
      requires Valid() && index < |nodes|
      modifies this
      ensures Valid() && head == old(head) && old(nodes) <= nodes
      ensures Now() == PushAll(old(Now()), query.maxDepth,
                               FromRewrites(policy, goal.object_,
                                            RewritesFor(policy, goal.relation, goal.object_.kind)), index, depth)
    {
      hide PushAll, SubjectsFor, RewritesFor;
      var rules := RewritesFor(policy, goal.relation, goal.object_.kind);
      PushNone(Now(), query.maxDepth, index, depth);
      for i := 0 to |rules|
        invariant Valid() && head == old(head) && old(nodes) <= nodes
        invariant Now() == PushAll(old(Now()), query.maxDepth, FromRewrites(policy, goal.object_, rules[..i]), index,
                                   depth)
      {
        var parents := SubjectsFor(policy, goal.object_, rules[i].via);
        assert rules[..i + 1][..i] == rules[..i];
        PushAllAppends(old(Now()), query.maxDepth, FromRewrites(policy, goal.object_, rules[..i]),
                       FromParents(rules[i].on, parents), index, depth);
        PushParents(rules[i].on, parents, index, depth);
      }
      assert rules[..|rules|] == rules;
    }

    /** One visit: a satisfying subject, or everything the goal leads to pushed. */
    method Visit(goal: Goal, index: nat, depth: nat) returns (found: Option<SubjectRef>)
      requires Valid() && index < |nodes|
      modifies this
      ensures Valid() && head == old(head) && old(nodes) <= nodes
      ensures found.Some? <==> Succeeds(policy, query, goal)
      ensures found.Some? ==> found.value == FirstSatisfying(query, SubjectsFor(policy, goal.object_, goal.relation))
      ensures found.None? ==> Now() == PushAll(old(Now()), query.maxDepth, Successors(policy, query, goal), index,
                                               depth)
    {
      hide PushAll, Succeeds, SubjectsFor, RewritesFor, FromSubjects, FromRewrites, FirstSatisfying;
      PushAllAppends(Now(), query.maxDepth, FromSubjects(query, SubjectsFor(policy, goal.object_, goal.relation)),
                     FromRewrites(policy, goal.object_, RewritesFor(policy, goal.relation, goal.object_.kind)),
                     index, depth);
      found := VisitSubjects(goal, index, depth);
      if found.None? { VisitRewrites(goal, index, depth); }
    }

    method PushParents(on: string, parents: seq<SubjectRef>, index: nat, depth: nat)
      requires Valid() && index < |nodes|
      modifies this
      ensures Valid() && head == old(head) && old(nodes) <= nodes
      ensures Now() == PushAll(old(Now()), query.maxDepth, FromParents(on, parents), index, depth)
    {
      hide PushAll;
      PushNone(Now(), query.maxDepth, index, depth);
      for i := 0 to |parents|
        invariant Valid() && head == old(head) && old(nodes) <= nodes
        invariant Now() == PushAll(old(Now()), query.maxDepth, FromParents(on, parents[..i]), index, depth)
      {
        assert parents[..i + 1][..i] == parents[..i];
        PushOneMore(old(Now()), query.maxDepth, FromParents(on, parents[..i]), Goal(on, parents[i].object_), index,
                    depth);
        PushGoal(Goal(on, parents[i].object_), Some(index), depth);
      }
      assert parents[..|parents|] == parents;
    }

    /** `path_of`: follow parent links to the root, then reverse. */
    method PathOf(start: nat) returns (path: seq<Goal>)
      requires Valid() && start < |nodes|
      ensures path == PathTo(nodes, start)
    {
      path := [nodes[start].goal];
      var index := start;
      while nodes[index].parent.Some?
        invariant index < |nodes| && path != [] && path[0] == nodes[index].goal
        invariant PathTo(nodes, start) == PathTo(nodes, index) + path[1..]
        decreases index
      {
        index := nodes[index].parent.value;
        path := [nodes[index].goal] + path;
      }
    }

    /** `run`: the in-place walk computes the functional search, and charges the budget for exactly its visits. */
    method Run(root: Goal, budget: Budget) returns (r: Search)
      requires Valid() && nodes == [] && visited == {} && head == 0 && budget.Valid()
      modifies this, budget
      ensures budget.Valid()
      ensures (r, old(budget.Left()) - budget.Left()) == SearchFrom(policy, query, root, old(budget.Left()))
    {
      hide PushAll, Succeeds, SubjectsFor, Successors, PathTo, FirstSatisfying;
      PushGoal(root, None, 0);
      assert Now() == Start(root);
      hide Explore;
      while queue != []
        invariant Valid() && budget.Valid() && budget.Left() <= old(budget.Left())
        invariant var (r', spent) := Explore(policy, query, Now(), head, budget.Left());
                  SearchFrom(policy, query, root, old(budget.Left()))
                      == (r', spent + old(budget.Left()) - budget.Left())
        decreases budget.Left()
      {
        var index := queue[0];
        assert index == head;
        ExploreStep(policy, query, Now(), head, budget.Left());
        queue := queue[1..];
        head := head + 1;
        var ok := budget.Spend();
        if !ok { return Exhausted; }
        var goal, depth := nodes[index].goal, nodes[index].depth;
        ghost var before := nodes;
        var found := Visit(goal, index, depth + 1);
        if found.Some? {
          PathStays(before, nodes, index);
          var path := PathOf(index);
          return Found(found.value, path);
        }
      }
      ExploreEnds(policy, query, Now(), head, budget.Left());
      return NotFound;
    }
  }

  lemma PushNone(s: State, maxDepth: nat, parent: nat, depth: nat)
    ensures PushAll(s, maxDepth, [], parent, depth) == s
  {}

  lemma PushOneMore(s: State, maxDepth: nat, goals: seq<Goal>, g: Goal, parent: nat, depth: nat)
    ensures PushAll(s, maxDepth, goals + [g], parent, depth)
            == Push(PushAll(s, maxDepth, goals, parent, depth), maxDepth, g, Some(parent), depth)
  {
    assert (goals + [g])[..|goals|] == goals;
  }

  lemma PushSingle(s: State, maxDepth: nat, g: Goal, parent: nat, depth: nat)
    ensures PushAll(s, maxDepth, [g], parent, depth) == Push(s, maxDepth, g, Some(parent), depth)
  {
    assert [g][..0] == [];
  }

  lemma {:induction false} PushAllAppends(s: State, maxDepth: nat, a: seq<Goal>, b: seq<Goal>, parent: nat, depth: nat)
    ensures PushAll(s, maxDepth, a + b, parent, depth)
            == PushAll(PushAll(s, maxDepth, a, parent, depth), maxDepth, b, parent, depth)
    decreases |b|
  {
    if b == [] {
      assert a + b == a;
    } else {
      assert (a + b)[..|a + b| - 1] == a + b[..|b| - 1];
      PushAllAppends(s, maxDepth, a, b[..|b| - 1], parent, depth);
    }
  }

  lemma {:induction false} FirstAt(query: Query, ss: seq<SubjectRef>, i: nat)
    requires i < |ss| && forall j :: 0 <= j < i ==> !Satisfies(query, ss[j])
    ensures Satisfies(query, ss[i]) ==> FirstSatisfying(query, ss) == ss[i]
    decreases i
  {
    if i > 0 && Satisfies(query, ss[i]) {
      assert ss[1..][i - 1] == ss[i];
      forall j | 0 <= j < i - 1 ensures !Satisfies(query, ss[1..][j]) { assert ss[1..][j] == ss[j + 1]; }
      FirstAt(query, ss[1..], i - 1);
    }
  }

  /** Later pushes do not change the path to an earlier node. */
  lemma {:induction false} PathStays(nodes: seq<Node>, more: seq<Node>, i: nat)
    requires nodes <= more && i < |nodes| && ParentsPrecede(nodes) && ParentsPrecede(more)
    ensures PathTo(nodes, i) == PathTo(more, i)
    decreases i
  {
    assert nodes[i] == more[i];
    if nodes[i].parent.Some? { PathStays(nodes, more, nodes[i].parent.value); }
  }
}
