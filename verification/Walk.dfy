/**
 * The bounded relationship search.
 *
 * A breadth-first walk over `(relation, object)` goals with a depth bound, a visited set and a visit budget.
 */
module Walk {
  import opened Options
  import opened Policy

  datatype Goal = Goal(relation: string, object_: ObjectRef)

  /** What one check asks: who is asking, and how far to look. */
  datatype Query = Query(subjects: set<ObjectRef>, expand: seq<string>, maxDepth: nat)

  // ---------------------------------------------------------------------
  // The goal graph
  // ---------------------------------------------------------------------

  /** `holds`: a subject held outright, or a type wildcard of a held kind. */
  predicate Holds(query: Query, s: SubjectRef) {
    || s.object_ in query.subjects
    || (s.object_.IsWildcard() && exists held :: held in query.subjects && held.kind == s.object_.kind)
  }

  predicate Satisfies(query: Query, s: SubjectRef) { s.relation.None? && Holds(query, s) }

  /** A goal with a plain subject the request holds. */
  predicate Succeeds(policy: Policy, query: Query, g: Goal) {
    exists i :: 0 <= i < |SubjectsFor(policy, g.object_, g.relation)|
        && Satisfies(query, SubjectsFor(policy, g.object_, g.relation)[i])
  }

  function Expansions(expand: seq<string>, o: ObjectRef): seq<Goal> {
    if expand == [] then [] else Expansions(expand[..|expand| - 1], o) + [Goal(expand[|expand| - 1], o)]
  }

  /** A userset subject leads to its own goal; a plain one to its membership expansions. */
  function FromSubject(query: Query, s: SubjectRef): seq<Goal> {
    if s.relation.Some? then [Goal(s.relation.value, s.object_)] else Expansions(query.expand, s.object_)
  }

  function FromSubjects(query: Query, ss: seq<SubjectRef>): seq<Goal> {
    if ss == [] then [] else FromSubjects(query, ss[..|ss| - 1]) + FromSubject(query, ss[|ss| - 1])
  }

  function FromParents(on: string, parents: seq<SubjectRef>): seq<Goal> {
    if parents == [] then [] else FromParents(on, parents[..|parents| - 1]) + [Goal(on, parents[|parents| - 1].object_)]
  }

  function FromRewrites(policy: Policy, o: ObjectRef, rules: seq<Rewrite>): seq<Goal> {
    if rules == [] then []
    else FromRewrites(policy, o, rules[..|rules| - 1])
         + FromParents(rules[|rules| - 1].on, SubjectsFor(policy, o, rules[|rules| - 1].via))
  }

  /** The goals one hop away, in the order the walk pushes them. */
  function Successors(policy: Policy, query: Query, g: Goal): seq<Goal> {
    FromSubjects(query, SubjectsFor(policy, g.object_, g.relation))
    + FromRewrites(policy, g.object_, RewritesFor(policy, g.relation, g.object_.kind))
  }

  /** Goals in which each next is one hop from the one before. */
  ghost predicate Chain(policy: Policy, query: Query, root: Goal, path: seq<Goal>) {
    && path != [] && path[0] == root
    && forall i :: 0 < i < |path| ==> path[i] in Successors(policy, query, path[i - 1])
  }

  /** A chain within the depth bound that ends at a goal the request satisfies. */
  ghost predicate Grants(policy: Policy, query: Query, root: Goal, path: seq<Goal>) {
    && Chain(policy, query, root, path)
    && |path| <= query.maxDepth + 1
    && Succeeds(policy, query, path[|path| - 1])
  }

  // ---------------------------------------------------------------------
  // The walk as a function
  // ---------------------------------------------------------------------

  datatype Node = Node(goal: Goal, parent: Option<nat>, depth: nat)

  /** Everything pushed so far, in order; nodes before `head` have been visited. */
  datatype State = State(nodes: seq<Node>, visited: set<Goal>)

  function Push(s: State, maxDepth: nat, goal: Goal, parent: Option<nat>, depth: nat): State {
    if depth > maxDepth || goal in s.visited then s
    else State(s.nodes + [Node(goal, parent, depth)], s.visited + {goal})
  }

  function PushAll(s: State, maxDepth: nat, goals: seq<Goal>, parent: nat, depth: nat): State {
    if goals == [] then s
    else Push(PushAll(s, maxDepth, goals[..|goals| - 1], parent, depth), maxDepth, goals[|goals| - 1], Some(parent),
              depth)
  }

  function Start(root: Goal): State { State([Node(root, None, 0)], {root}) }

  /** `path_of`: the goals from the root to a node, by parent links. */
  function PathTo(nodes: seq<Node>, i: nat): seq<Goal>
    requires i < |nodes| && ParentsPrecede(nodes)
    decreases i
  {
    if nodes[i].parent.None? then [nodes[i].goal] else PathTo(nodes, nodes[i].parent.value) + [nodes[i].goal]
  }

  predicate ParentsPrecede(nodes: seq<Node>) {
    forall i :: 0 <= i < |nodes| && nodes[i].parent.Some? ==> nodes[i].parent.value < i
  }

  function FirstSatisfying(query: Query, ss: seq<SubjectRef>): SubjectRef
    requires exists i :: 0 <= i < |ss| && Satisfies(query, ss[i])
  {
    if Satisfies(query, ss[0]) then ss[0] else FirstSatisfying(query, ss[1..])
  }

  datatype Search = Found(subject: SubjectRef, path: seq<Goal>) | NotFound | Exhausted

  /** One search from a state: its outcome and the visits it spent out of `budget`. */
  function Explore(policy: Policy, query: Query, s: State, head: nat, budget: nat): (Search, nat)
    requires ParentsPrecede(s.nodes)
    decreases budget
  {
    if head >= |s.nodes| then (NotFound, 0)
    else if budget == 0 then (Exhausted, 0)
    else
      var node := s.nodes[head];
      if Succeeds(policy, query, node.goal) then
        (Found(FirstSatisfying(query, SubjectsFor(policy, node.goal.object_, node.goal.relation)),
               PathTo(s.nodes, head)), 1)
      else
        var next := PushAll(s, query.maxDepth, Successors(policy, query, node.goal), head, node.depth + 1);
        PushAllParents(s, query.maxDepth, Successors(policy, query, node.goal), head, node.depth + 1);
        var (r, spent) := Explore(policy, query, next, head + 1, budget - 1);
        (r, spent + 1)
  }

  lemma {:induction false} PushAllParents(s: State, maxDepth: nat, goals: seq<Goal>, parent: nat, depth: nat)
    requires ParentsPrecede(s.nodes) && parent < |s.nodes|
    ensures ParentsPrecede(PushAll(s, maxDepth, goals, parent, depth).nodes)
    ensures s.nodes <= PushAll(s, maxDepth, goals, parent, depth).nodes
    decreases |goals|
  {
    if goals != [] { PushAllParents(s, maxDepth, goals[..|goals| - 1], parent, depth); }
  }

  lemma ExploreStep(policy: Policy, query: Query, s: State, head: nat, budget: nat)
    requires ParentsPrecede(s.nodes) && head < |s.nodes|
    ensures var g := s.nodes[head].goal;
            var next := PushAll(s, query.maxDepth, Successors(policy, query, g), head, s.nodes[head].depth + 1);
            && ParentsPrecede(next.nodes)
            && Explore(policy, query, s, head, budget)
               == if budget == 0 then (Exhausted, 0)
                  else if Succeeds(policy, query, g) then
                    (Found(FirstSatisfying(query, SubjectsFor(policy, g.object_, g.relation)), PathTo(s.nodes, head)),
                     1)
                  else
                    var (r, spent) := Explore(policy, query, next, head + 1, budget - 1);
                    (r, spent + 1)
  {
    hide PushAll, Successors, Succeeds, SubjectsFor, FirstSatisfying, PathTo;
    PushAllParents(s, query.maxDepth, Successors(policy, query, s.nodes[head].goal), head, s.nodes[head].depth + 1);
  }

  lemma ExploreEnds(policy: Policy, query: Query, s: State, head: nat, budget: nat)
    requires ParentsPrecede(s.nodes) && head >= |s.nodes|
    ensures Explore(policy, query, s, head, budget) == (NotFound, 0)
  {}

  function SearchFrom(policy: Policy, query: Query, root: Goal, budget: nat): (Search, nat) {
    Explore(policy, query, Start(root), 0, budget)
  }

  // ---------------------------------------------------------------------
  // The breadth-first invariant
  // ---------------------------------------------------------------------

  /** The node list is a tree of hops from the root, with no goal twice, in order of depth. */
  ghost predicate Tree(policy: Policy, query: Query, root: Goal, s: State) {
    && s.nodes != [] && s.nodes[0] == Node(root, None, 0)
    && (forall g :: g in s.visited <==> exists i :: 0 <= i < |s.nodes| && s.nodes[i].goal == g)
    && (forall i :: 0 <= i < |s.nodes| ==> s.nodes[i].depth <= query.maxDepth)
    && (forall i, j :: 0 <= i < j < |s.nodes| ==> s.nodes[i].depth <= s.nodes[j].depth)
    && (forall i :: 0 < i < |s.nodes| ==> LinkedUp(policy, query, s.nodes, i))
  }

  ghost predicate LinkedUp(policy: Policy, query: Query, nodes: seq<Node>, i: nat)
    requires 0 < i < |nodes|
  {
    && nodes[i].parent.Some? && nodes[i].parent.value < i
    && nodes[i].depth == nodes[nodes[i].parent.value].depth + 1
    && nodes[i].goal in Successors(policy, query, nodes[nodes[i].parent.value].goal)
  }

  /** The goal was pushed, at that depth or nearer. */
  ghost predicate Pushed(nodes: seq<Node>, g: Goal, depth: nat) {
    exists j :: 0 <= j < |nodes| && nodes[j].goal == g && nodes[j].depth <= depth
  }

  /** A visited node: it did not succeed, and everything one hop from it was pushed one level down at most. */
  ghost predicate Done(policy: Policy, query: Query, nodes: seq<Node>, i: nat)
    requires i < |nodes|
  {
    && !Succeeds(policy, query, nodes[i].goal)
    && forall g :: g in Successors(policy, query, nodes[i].goal) && nodes[i].depth + 1 <= query.maxDepth ==>
         Pushed(nodes, g, nodes[i].depth + 1)
  }

  ghost predicate Inv(policy: Policy, query: Query, root: Goal, s: State, head: nat) {
    && Tree(policy, query, root, s)
    && head <= |s.nodes|
    && (forall i :: 0 <= i < head ==> Done(policy, query, s.nodes, i))
    && (forall i :: 0 <= i < |s.nodes| ==> s.nodes[i].depth <= if head == 0 then 0 else s.nodes[head - 1].depth + 1)
  }

  /** What pushing a node's successors keeps and adds. */
  ghost predicate Extends(policy: Policy, query: Query, root: Goal, s: State, s': State, head: nat, goals: seq<Goal>)
    requires head < |s.nodes|
  {
    && Tree(policy, query, root, s') && s.nodes <= s'.nodes
    && (forall i :: |s.nodes| <= i < |s'.nodes| ==> s'.nodes[i].depth == s.nodes[head].depth + 1)
    && (forall g :: g in goals && s.nodes[head].depth + 1 <= query.maxDepth ==>
          Pushed(s'.nodes, g, s.nodes[head].depth + 1))
  }

  lemma GrowTree(policy: Policy, query: Query, root: Goal, s: State, g: Goal, parent: nat)
    requires Tree(policy, query, root, s) && parent < |s.nodes| && g !in s.visited
    requires s.nodes[parent].depth + 1 <= query.maxDepth && g in Successors(policy, query, s.nodes[parent].goal)
    requires forall i :: 0 <= i < |s.nodes| ==> s.nodes[i].depth <= s.nodes[parent].depth + 1
    ensures Tree(policy, query, root,
                 State(s.nodes + [Node(g, Some(parent), s.nodes[parent].depth + 1)], s.visited + {g}))
  {
    hide Successors;
    var n := |s.nodes|;
    var s2 := State(s.nodes + [Node(g, Some(parent), s.nodes[parent].depth + 1)], s.visited + {g});
    forall i | 0 < i < |s2.nodes| ensures LinkedUp(policy, query, s2.nodes, i) {
      if i < n { assert LinkedUp(policy, query, s.nodes, i); }
    }
    forall h ensures h in s2.visited <==> exists i :: 0 <= i < |s2.nodes| && s2.nodes[i].goal == h {
      if h in s.visited { var i :| 0 <= i < n && s.nodes[i].goal == h; assert s2.nodes[i].goal == h; }
      if h == g { assert s2.nodes[n].goal == g; }
    }
  }

  lemma PushOne(policy: Policy, query: Query, root: Goal, s: State, s1: State, head: nat, goals: seq<Goal>, g: Goal)
    requires head < |s.nodes| && Extends(policy, query, root, s, s1, head, goals)
    requires forall i :: 0 <= i < |s.nodes| ==> s.nodes[i].depth <= s.nodes[head].depth + 1
    requires g in Successors(policy, query, s.nodes[head].goal)
    ensures Extends(policy, query, root, s, Push(s1, query.maxDepth, g, Some(head), s.nodes[head].depth + 1), head,
                    goals + [g])
  {
    hide Successors, Tree, Pushed;
    var d := s.nodes[head].depth + 1;
    var s2 := Push(s1, query.maxDepth, g, Some(head), d);
    forall i | 0 <= i < |s1.nodes| ensures s1.nodes[i].depth <= d {
      if i < |s.nodes| { assert s1.nodes[i] == s.nodes[i]; }
    }
    assert s1.nodes[head] == s.nodes[head];
    if d <= query.maxDepth {
      if g in s1.visited {
        VisitedIsPushed(policy, query, root, s1, g, d);
      } else {
        GrowTree(policy, query, root, s1, g, head);
        LastIsPushed(s1.nodes, Node(g, Some(head), d));
      }
    }
    forall h | h in goals && d <= query.maxDepth ensures Pushed(s2.nodes, h, d) {
      PushedGrows(s1.nodes, s2.nodes, h, d);
    }
  }

  lemma VisitedIsPushed(policy: Policy, query: Query, root: Goal, s: State, g: Goal, depth: nat)
    requires Tree(policy, query, root, s) && g in s.visited
    requires forall i :: 0 <= i < |s.nodes| ==> s.nodes[i].depth <= depth
    ensures Pushed(s.nodes, g, depth)
  {}

  lemma LastIsPushed(nodes: seq<Node>, node: Node)
    ensures Pushed(nodes + [node], node.goal, node.depth)
  {
    assert (nodes + [node])[|nodes|] == node;
  }

  lemma PushedGrows(nodes: seq<Node>, more: seq<Node>, g: Goal, depth: nat)
    requires nodes <= more && Pushed(nodes, g, depth)
    ensures Pushed(more, g, depth)
  {
    var j :| 0 <= j < |nodes| && nodes[j].goal == g && nodes[j].depth <= depth;
    assert more[j] == nodes[j];
  }

  lemma {:induction false} PushMany(policy: Policy, query: Query, root: Goal, s: State, head: nat, goals: seq<Goal>)
    requires head < |s.nodes| && Tree(policy, query, root, s)
    requires forall i :: 0 <= i < |s.nodes| ==> s.nodes[i].depth <= s.nodes[head].depth + 1
    requires forall g :: g in goals ==> g in Successors(policy, query, s.nodes[head].goal)
    ensures Extends(policy, query, root, s, PushAll(s, query.maxDepth, goals, head, s.nodes[head].depth + 1), head,
                    goals)
    decreases |goals|
  {
    hide Successors, Extends, Tree;
    if goals == [] {
      NothingPushed(policy, query, root, s, head);
    } else {
      var init, g := goals[..|goals| - 1], goals[|goals| - 1];
      PushMany(policy, query, root, s, head, init);
      PushOne(policy, query, root, s, PushAll(s, query.maxDepth, init, head, s.nodes[head].depth + 1), head, init, g);
      assert goals == init + [g];
    }
  }

  lemma NothingPushed(policy: Policy, query: Query, root: Goal, s: State, head: nat)
    requires head < |s.nodes| && Tree(policy, query, root, s)
    ensures Extends(policy, query, root, s, s, head, [])
  {}

  lemma DoneLater(policy: Policy, query: Query, nodes: seq<Node>, more: seq<Node>, i: nat)
    requires nodes <= more && i < |nodes| && Done(policy, query, nodes, i)
    ensures Done(policy, query, more, i)
  {
    hide Successors, Succeeds, Pushed;
    assert more[i] == nodes[i];
    forall g | g in Successors(policy, query, nodes[i].goal) && nodes[i].depth + 1 <= query.maxDepth
      ensures Pushed(more, g, nodes[i].depth + 1)
    {
      PushedGrows(nodes, more, g, nodes[i].depth + 1);
    }
  }

  /** Visiting a node that does not succeed keeps the invariant. */
  lemma VisitKeeps(policy: Policy, query: Query, root: Goal, s: State, head: nat)
    requires Inv(policy, query, root, s, head) && head < |s.nodes|
    requires !Succeeds(policy, query, s.nodes[head].goal)
    ensures var goals := Successors(policy, query, s.nodes[head].goal);
            Inv(policy, query, root, PushAll(s, query.maxDepth, goals, head, s.nodes[head].depth + 1), head + 1)
  {
    hide Successors, Succeeds, PushAll, LinkedUp;
    var goals := Successors(policy, query, s.nodes[head].goal);
    var s' := PushAll(s, query.maxDepth, goals, head, s.nodes[head].depth + 1);
    PushMany(policy, query, root, s, head, goals);
    assert s'.nodes[head] == s.nodes[head];
    forall i | 0 <= i < head + 1 ensures Done(policy, query, s'.nodes, i) {
      if i < head { DoneLater(policy, query, s.nodes, s'.nodes, i); }
    }
    forall i | 0 <= i < |s'.nodes| ensures s'.nodes[i].depth <= s'.nodes[head].depth + 1 {
      if i < |s.nodes| { assert s'.nodes[i] == s.nodes[i]; }
    }
  }

  lemma StartInv(policy: Policy, query: Query, root: Goal)
    ensures Inv(policy, query, root, Start(root), 0)
  {
    assert Start(root).nodes[0].goal == root;
  }

  // ---------------------------------------------------------------------
  // What the invariant says about chains
  // ---------------------------------------------------------------------

  /** Where every node nearer than `limit` has been visited, the k-th goal of any chain was pushed within k hops. */
  lemma {:induction false} ChainIsPushed(policy: Policy, query: Query, root: Goal, s: State, head: nat, path: seq<Goal>,
                                         limit: nat, k: nat)
    requires Inv(policy, query, root, s, head) && Chain(policy, query, root, path)
    requires forall i :: 0 <= i < |s.nodes| && s.nodes[i].depth < limit ==> i < head
    requires k < |path| && k <= query.maxDepth && k <= limit
    ensures Pushed(s.nodes, path[k], k)
    decreases k
  {
    hide Successors, Succeeds, LinkedUp;
    if k == 0 {
      assert s.nodes[0].goal == path[0];
    } else {
      ChainIsPushed(policy, query, root, s, head, path, limit, k - 1);
      var j :| 0 <= j < |s.nodes| && s.nodes[j].goal == path[k - 1] && s.nodes[j].depth <= k - 1;
      assert Done(policy, query, s.nodes, j);
      var m :| 0 <= m < |s.nodes| && s.nodes[m].goal == path[k] && s.nodes[m].depth <= s.nodes[j].depth + 1;
    }
  }

  /** No goal nearer than `limit` on any chain succeeds. */
  lemma NothingNearer(policy: Policy, query: Query, root: Goal, s: State, head: nat, path: seq<Goal>, limit: nat)
    requires Inv(policy, query, root, s, head)
    requires forall i :: 0 <= i < |s.nodes| && s.nodes[i].depth < limit ==> i < head
    requires Grants(policy, query, root, path)
    ensures |path| > limit
  {
    hide Successors, Succeeds, LinkedUp;
    var k := |path| - 1;
    if k < limit {
      ChainIsPushed(policy, query, root, s, head, path, limit, k);
      NearerFails(policy, query, root, s, head, path[k], k, limit);
    }
  }

  lemma NearerFails(policy: Policy, query: Query, root: Goal, s: State, head: nat, g: Goal, depth: nat, limit: nat)
    requires Inv(policy, query, root, s, head) && depth < limit && Pushed(s.nodes, g, depth)
    requires forall i :: 0 <= i < |s.nodes| && s.nodes[i].depth < limit ==> i < head
    ensures !Succeeds(policy, query, g)
  {
    hide Successors, Succeeds, LinkedUp;
    var j :| 0 <= j < |s.nodes| && s.nodes[j].goal == g && s.nodes[j].depth <= depth;
    assert Done(policy, query, s.nodes, j);
  }

  /** Parent links spell a chain, one goal longer than the node is deep. */
  lemma {:induction false} PathIsChain(policy: Policy, query: Query, root: Goal, s: State, i: nat)
    requires Tree(policy, query, root, s) && i < |s.nodes| && ParentsPrecede(s.nodes)
    ensures Chain(policy, query, root, PathTo(s.nodes, i))
    ensures |PathTo(s.nodes, i)| == s.nodes[i].depth + 1
    ensures PathTo(s.nodes, i)[|PathTo(s.nodes, i)| - 1] == s.nodes[i].goal
    decreases i
  {
    hide Successors;
    if i > 0 {
      assert LinkedUp(policy, query, s.nodes, i);
      PathIsChain(policy, query, root, s, s.nodes[i].parent.value);
    }
  }

  lemma {:induction false} FirstSatisfyingMeaning(query: Query, ss: seq<SubjectRef>)
    requires exists i :: 0 <= i < |ss| && Satisfies(query, ss[i])
    ensures FirstSatisfying(query, ss) in ss && Satisfies(query, FirstSatisfying(query, ss))
    decreases |ss|
  {
    if !Satisfies(query, ss[0]) {
      var i :| 0 <= i < |ss| && Satisfies(query, ss[i]);
      assert ss[1..][i - 1] == ss[i];
      FirstSatisfyingMeaning(query, ss[1..]);
    }
  }

  // ---------------------------------------------------------------------
  // Soundness, completeness, minimality
  // ---------------------------------------------------------------------

  /** What the outcome of a search must say about the chains from the root. */
  ghost predicate Answers(policy: Policy, query: Query, root: Goal, r: Search) {
    match r
    case Found(subject, path) =>
      && Grants(policy, query, root, path)
      && (forall other :: Grants(policy, query, root, other) ==> |path| <= |other|)
      && Satisfies(query, subject)
      && subject in SubjectsFor(policy, path[|path| - 1].object_, path[|path| - 1].relation)
    case NotFound => forall path :: !Grants(policy, query, root, path)
    case Exhausted => true
  }

  lemma FoundAnswers(policy: Policy, query: Query, root: Goal, s: State, head: nat)
    requires Inv(policy, query, root, s, head) && head < |s.nodes| && ParentsPrecede(s.nodes)
    requires Succeeds(policy, query, s.nodes[head].goal)
    ensures var g := s.nodes[head].goal;
            Answers(policy, query, root, Found(FirstSatisfying(query, SubjectsFor(policy, g.object_, g.relation)),
                                               PathTo(s.nodes, head)))
  {
    var g := s.nodes[head].goal;
    FirstSatisfyingMeaning(query, SubjectsFor(policy, g.object_, g.relation));
    PathIsChain(policy, query, root, s, head);
    hide Successors, Succeeds, LinkedUp, Done;
    forall other | Grants(policy, query, root, other) ensures s.nodes[head].depth + 1 <= |other| {
      NothingNearer(policy, query, root, s, head, other, s.nodes[head].depth);
    }
  }

  lemma NotFoundAnswers(policy: Policy, query: Query, root: Goal, s: State, head: nat)
    requires Inv(policy, query, root, s, head) && head >= |s.nodes|
    ensures Answers(policy, query, root, NotFound)
  {
    hide Successors, Succeeds, LinkedUp, Done;
    forall path ensures !Grants(policy, query, root, path) {
      if Grants(policy, query, root, path) { NothingNearer(policy, query, root, s, head, path, query.maxDepth + 1); }
    }
  }

  lemma {:induction false} ExploreAnswers(policy: Policy, query: Query, root: Goal, s: State, head: nat, budget: nat)
    requires Inv(policy, query, root, s, head) && ParentsPrecede(s.nodes)
    ensures Answers(policy, query, root, Explore(policy, query, s, head, budget).0)
    ensures Explore(policy, query, s, head, budget).1 <= budget
    ensures Explore(policy, query, s, head, budget).0.Exhausted? ==> Explore(policy, query, s, head, budget).1 == budget
    decreases budget
  {
    hide Successors, Succeeds, Answers, Inv, PushAll;
    if head >= |s.nodes| {
      NotFoundAnswers(policy, query, root, s, head);
    } else if budget == 0 {
      ExhaustedAnswers(policy, query, root);
    } else if Succeeds(policy, query, s.nodes[head].goal) {
      FoundAnswers(policy, query, root, s, head);
    } else {
      var goals := Successors(policy, query, s.nodes[head].goal);
      VisitKeeps(policy, query, root, s, head);
      PushAllParents(s, query.maxDepth, goals, head, s.nodes[head].depth + 1);
      ExploreAnswers(policy, query, root, PushAll(s, query.maxDepth, goals, head, s.nodes[head].depth + 1), head + 1,
                     budget - 1);
    }
  }

  lemma ExhaustedAnswers(policy: Policy, query: Query, root: Goal)
    ensures Answers(policy, query, root, Exhausted)
  {}

  /**
   * While the budget lasts, the search finds a path exactly when a chain within the depth bound grants, the path is a
   * genuine chain no longer than any other, and the search only gives up with its whole budget spent.
   */
  lemma SearchIsExact(policy: Policy, query: Query, root: Goal, budget: nat)
    ensures var (r, spent) := SearchFrom(policy, query, root, budget);
            && Answers(policy, query, root, r)
            && spent <= budget && (r.Exhausted? ==> spent == budget)
            && (!r.Exhausted? ==> (r.Found? <==> exists path :: Grants(policy, query, root, path)))
  {
    StartInv(policy, query, root);
    ExploreAnswers(policy, query, root, Start(root), 0, budget);
  }

  /** A search that ended is the same search under any larger budget. */
  lemma {:induction false} MoreBudget(policy: Policy, query: Query, s: State, head: nat, budget: nat, more: nat)
    requires ParentsPrecede(s.nodes) && budget <= more
    requires !Explore(policy, query, s, head, budget).0.Exhausted?
    ensures Explore(policy, query, s, head, more) == Explore(policy, query, s, head, budget)
    decreases budget
  {
    hide Successors, Succeeds, PushAll;
    if head < |s.nodes| && !Succeeds(policy, query, s.nodes[head].goal) {
      var goals := Successors(policy, query, s.nodes[head].goal);
      PushAllParents(s, query.maxDepth, goals, head, s.nodes[head].depth + 1);
      MoreBudget(policy, query, PushAll(s, query.maxDepth, goals, head, s.nodes[head].depth + 1), head + 1, budget - 1,
                 more - 1);
    }
  }

  // ---------------------------------------------------------------------
  // How much budget is enough
  // ---------------------------------------------------------------------

  /** Every goal was pushed once, and all of them are among these. */
  ghost predicate Confined(s: State, within: set<Goal>) {
    && |s.nodes| == |s.visited| && s.visited <= within
    && forall i :: 0 <= i < |s.nodes| ==> s.nodes[i].goal in s.visited
  }

  /** No hop leads out of these goals. */
  ghost predicate Closed(policy: Policy, query: Query, within: set<Goal>) {
    forall g, h :: g in within && h in Successors(policy, query, g) ==> h in within
  }

  lemma {:induction false} PushAllConfined(s: State, maxDepth: nat, goals: seq<Goal>, parent: nat, depth: nat,
                                           within: set<Goal>)
    requires Confined(s, within) && forall g :: g in goals ==> g in within
    ensures Confined(PushAll(s, maxDepth, goals, parent, depth), within)
    decreases |goals|
  {
    if goals != [] { PushAllConfined(s, maxDepth, goals[..|goals| - 1], parent, depth, within); }
  }

  lemma {:induction false} ExploreWithin(policy: Policy, query: Query, s: State, head: nat, budget: nat,
                                         within: set<Goal>)
    requires ParentsPrecede(s.nodes) && Confined(s, within) && Closed(policy, query, within)
    requires |within| <= head + budget
    ensures !Explore(policy, query, s, head, budget).0.Exhausted?
    decreases budget
  {
    hide Successors, Succeeds, PushAll;
    Subset(s.visited, within);
    if head < |s.nodes| && !Succeeds(policy, query, s.nodes[head].goal) {
      var goals, depth := Successors(policy, query, s.nodes[head].goal), s.nodes[head].depth + 1;
      PushAllParents(s, query.maxDepth, goals, head, depth);
      PushAllConfined(s, query.maxDepth, goals, head, depth, within);
      ExploreWithin(policy, query, PushAll(s, query.maxDepth, goals, head, depth), head + 1, budget - 1, within);
    }
  }

  lemma Subset(few: set<Goal>, many: set<Goal>)
    requires few <= many
    ensures |few| <= |many|
  {
    assert many == few + (many - few);
  }

  /** A search never gives up with a visit for every goal it could reach, cycles or not, and never spends more. */
  lemma EnoughBudget(policy: Policy, query: Query, root: Goal, budget: nat, within: set<Goal>)
    requires root in within && Closed(policy, query, within) && |within| <= budget
    ensures var (r, spent) := SearchFrom(policy, query, root, budget); !r.Exhausted? && spent <= |within|
  {
    hide Explore;
    ExploreWithin(policy, query, Start(root), 0, |within|, within);
    MoreBudget(policy, query, Start(root), 0, |within|, budget);
    SearchIsExact(policy, query, root, |within|);
  }

  // ---------------------------------------------------------------------
  // The goal graph, read off the policy rows
  // ---------------------------------------------------------------------

  /** A row that names a userset. */
  ghost predicate UsersetHop(tuples: seq<Tuple>, g: Goal, h: Goal) {
    exists t :: t in tuples && Applies(t, g.object_, g.relation) && t.subject == SubjectRef(h.object_, Some(h.relation))
  }

  /** A row that names a plain object, expanded through a membership relation. */
  ghost predicate ExpansionHop(tuples: seq<Tuple>, query: Query, g: Goal, h: Goal) {
    && h.relation in query.expand
    && exists t :: t in tuples && Applies(t, g.object_, g.relation) && t.subject == SubjectRef(h.object_, None)
  }

  /** A rewrite rule, applied to an object some `via` row points at. */
  ghost predicate RewriteHop(tuples: seq<Tuple>, rules: seq<Rewrite>, g: Goal, h: Goal) {
    exists rule, t :: rule in rules && t in tuples && RewritesTo(rule, t, g, h)
  }

  predicate RewritesTo(rule: Rewrite, t: Tuple, g: Goal, h: Goal) {
    && rule.relation == g.relation && (rule.kind.None? || rule.kind.value == g.object_.kind)
    && Applies(t, g.object_, rule.via) && h == Goal(rule.on, t.subject.object_)
  }

  lemma {:induction false} ExpansionsMembers(expand: seq<string>, o: ObjectRef, h: Goal)
    ensures h in Expansions(expand, o) <==> h.object_ == o && h.relation in expand
    decreases |expand|
  {
    if expand != [] {
      ExpansionsMembers(expand[..|expand| - 1], o, h);
      assert expand == expand[..|expand| - 1] + [expand[|expand| - 1]];
    }
  }

  lemma {:induction false} FromSubjectsMembers(query: Query, ss: seq<SubjectRef>, h: Goal)
    ensures h in FromSubjects(query, ss)
            <==> (|| SubjectRef(h.object_, Some(h.relation)) in ss
                  || (SubjectRef(h.object_, None) in ss && h.relation in query.expand))
    decreases |ss|
  {
    if ss != [] {
      FromSubjectsMembers(query, ss[..|ss| - 1], h);
      ExpansionsMembers(query.expand, ss[|ss| - 1].object_, h);
      assert ss == ss[..|ss| - 1] + [ss[|ss| - 1]];
    }
  }

  lemma {:induction false} FromParentsMembers(on: string, parents: seq<SubjectRef>, h: Goal)
    ensures h in FromParents(on, parents) <==> h.relation == on && exists p :: p in parents && p.object_ == h.object_
    decreases |parents|
  {
    if parents != [] {
      FromParentsMembers(on, parents[..|parents| - 1], h);
      assert parents == parents[..|parents| - 1] + [parents[|parents| - 1]];
    }
  }

  lemma {:induction false} FromRewritesMembers(policy: Policy, o: ObjectRef, rules: seq<Rewrite>, h: Goal)
    ensures h in FromRewrites(policy, o, rules)
            <==> exists rule :: rule in rules && h in FromParents(rule.on, SubjectsFor(policy, o, rule.via))
    decreases |rules|
  {
    hide SubjectsFor, FromParents;
    if rules != [] {
      FromRewritesMembers(policy, o, rules[..|rules| - 1], h);
      assert rules == rules[..|rules| - 1] + [rules[|rules| - 1]];
    }
  }

  /** One hop is a userset row, an expanded plain row, or a rewrite over a `via` row, and nothing else. */
  lemma HopMeaning(policy: Policy, tuples: seq<Tuple>, rules: seq<Rewrite>, query: Query, g: Goal, h: Goal)
    requires CompiledFrom(policy, tuples, rules)
    ensures h in Successors(policy, query, g)
            <==> UsersetHop(tuples, g, h) || ExpansionHop(tuples, query, g, h) || RewriteHop(tuples, rules, g, h)
  {
    hide SubjectsFor, FromSubjects, FromRewrites, FromParents, RewritesFor, CompiledFrom, Applies;
    FromSubjectsMembers(query, SubjectsFor(policy, g.object_, g.relation), h);
    RowsName(policy, tuples, rules, g, SubjectRef(h.object_, Some(h.relation)));
    RowsName(policy, tuples, rules, g, SubjectRef(h.object_, None));
    RewriteMeaning(policy, tuples, rules, g, h);
  }

  lemma RowsName(policy: Policy, tuples: seq<Tuple>, rules: seq<Rewrite>, g: Goal, s: SubjectRef)
    requires CompiledFrom(policy, tuples, rules)
    ensures s in SubjectsFor(policy, g.object_, g.relation)
            <==> exists t :: t in tuples && Applies(t, g.object_, g.relation) && t.subject == s
  {
    SubjectsForMembers(policy, tuples, g.object_, g.relation, s);
  }

  lemma RewriteMeaning(policy: Policy, tuples: seq<Tuple>, rules: seq<Rewrite>, g: Goal, h: Goal)
    requires CompiledFrom(policy, tuples, rules)
    ensures h in FromRewrites(policy, g.object_, RewritesFor(policy, g.relation, g.object_.kind))
            <==> RewriteHop(tuples, rules, g, h)
  {
    hide SubjectsFor, FromParents, RewritesFor, CompiledFrom, Applies;
    var found := RewritesFor(policy, g.relation, g.object_.kind);
    FromRewritesMembers(policy, g.object_, found, h);
    if h in FromRewrites(policy, g.object_, found) {
      var rule :| rule in found && h in FromParents(rule.on, SubjectsFor(policy, g.object_, rule.via));
      RewritesForMembers(policy, tuples, rules, g.relation, g.object_.kind, rule);
      FromParentsMembers(rule.on, SubjectsFor(policy, g.object_, rule.via), h);
      var p :| p in SubjectsFor(policy, g.object_, rule.via) && p.object_ == h.object_;
      RowsName(policy, tuples, rules, Goal(rule.via, g.object_), p);
      var t :| t in tuples && Applies(t, g.object_, rule.via) && t.subject == p;
      assert RewritesTo(rule, t, g, h);
    }
    if RewriteHop(tuples, rules, g, h) {
      var rule, t :| rule in rules && t in tuples && RewritesTo(rule, t, g, h);
      RewritesForMembers(policy, tuples, rules, g.relation, g.object_.kind, rule);
      RowsName(policy, tuples, rules, Goal(rule.via, g.object_), t.subject);
      FromParentsMembers(rule.on, SubjectsFor(policy, g.object_, rule.via), h);
    }
  }

  /**
   * A row on the goal's relation, for its object or every object of its kind, that names a plain subject: one of the
   * subjects given, or the wildcard of a kind one of them has.
   */
  predicate NamesHeld(t: Tuple, subjects: set<ObjectRef>, g: Goal) {
    && t.relation == g.relation && (t.object_ == g.object_ || t.object_ == ObjectRef(g.object_.kind, "*"))
    && t.subject.relation == None
    && (|| t.subject.object_ in subjects
        || (t.subject.object_.id == "*" && exists held :: held in subjects && held.kind == t.subject.object_.kind))
  }

  ghost predicate HeldRow(tuples: seq<Tuple>, subjects: set<ObjectRef>, g: Goal) {
    exists t :: t in tuples && NamesHeld(t, subjects, g)
  }

  /** A goal succeeds exactly when such a row exists for the subjects of the request. */
  lemma SuccessMeaning(policy: Policy, tuples: seq<Tuple>, rules: seq<Rewrite>, query: Query, g: Goal)
    requires CompiledFrom(policy, tuples, rules)
    ensures Succeeds(policy, query, g) <==> HeldRow(tuples, query.subjects, g)
  {
    hide SubjectsFor, CompiledFrom;
    var ss := SubjectsFor(policy, g.object_, g.relation);
    if Succeeds(policy, query, g) {
      var i :| 0 <= i < |ss| && Satisfies(query, ss[i]);
      RowsName(policy, tuples, rules, g, ss[i]);
      var t :| t in tuples && Applies(t, g.object_, g.relation) && t.subject == ss[i];
      assert NamesHeld(t, query.subjects, g);
    }
    if t :| t in tuples && NamesHeld(t, query.subjects, g) {
      RowsName(policy, tuples, rules, g, t.subject);
      var i :| 0 <= i < |ss| && ss[i] == t.subject;
      assert Satisfies(query, ss[i]);
    }
  }

  /** A row for every subject of a kind satisfies exactly the requests with a subject of that kind. */
  lemma WildcardRow(t: Tuple, query: Query, g: Goal, kind: string)
    requires Applies(t, g.object_, g.relation) && t.subject == SubjectRef(ObjectRef(kind, "*"), None)
    ensures Satisfies(query, t.subject) <==> exists held :: held in query.subjects && held.kind == kind
  {
    if t.subject.object_ in query.subjects { assert t.subject.object_.kind == kind; }
  }

  /** A row for one subject satisfies exactly the requests with that very subject. */
  lemma PlainRow(t: Tuple, query: Query, g: Goal, o: ObjectRef)
    requires Applies(t, g.object_, g.relation) && t.subject == SubjectRef(o, None) && o.id != "*"
    ensures Satisfies(query, t.subject) <==> o in query.subjects
  {}

  // ---------------------------------------------------------------------
  // Derivations, on rows
  // ---------------------------------------------------------------------

  /** One hop on rows: a userset row, an expanded plain row, or a rewrite over a `via` row. */
  ghost predicate RowHop(tuples: seq<Tuple>, rules: seq<Rewrite>, query: Query, g: Goal, h: Goal) {
    UsersetHop(tuples, g, h) || ExpansionHop(tuples, query, g, h) || RewriteHop(tuples, rules, g, h)
  }

  /** The goal follows from the rows within so many hops. */
  ghost predicate Derives(tuples: seq<Tuple>, rules: seq<Rewrite>, query: Query, g: Goal, hops: nat)
    decreases hops
  {
    || HeldRow(tuples, query.subjects, g)
    || (hops > 0 && exists h :: RowHop(tuples, rules, query, g, h) && Derives(tuples, rules, query, h, hops - 1))
  }

  /** A chain that ends at a held row, within the hops it has left. */
  ghost predicate GrantsWithin(policy: Policy, query: Query, root: Goal, path: seq<Goal>, hops: nat) {
    Chain(policy, query, root, path) && |path| <= hops + 1 && Succeeds(policy, query, path[|path| - 1])
  }

  lemma ChainTail(policy: Policy, query: Query, root: Goal, path: seq<Goal>)
    requires Chain(policy, query, root, path) && |path| > 1
    ensures path[1] in Successors(policy, query, root) && Chain(policy, query, path[1], path[1..])
  {
    hide Successors;
    assert path[1] in Successors(policy, query, path[0]);
    forall i | 0 < i < |path[1..]| ensures path[1..][i] in Successors(policy, query, path[1..][i - 1]) {
      assert path[i + 1] in Successors(policy, query, path[i]);
    }
  }

  lemma ChainCons(policy: Policy, query: Query, root: Goal, path: seq<Goal>)
    requires path != [] && Chain(policy, query, path[0], path) && path[0] in Successors(policy, query, root)
    ensures Chain(policy, query, root, [root] + path)
  {
    hide Successors;
    var longer := [root] + path;
    forall i | 0 < i < |longer| ensures longer[i] in Successors(policy, query, longer[i - 1]) {
      if i > 1 { assert path[i - 1] in Successors(policy, query, path[i - 2]); }
    }
  }

  lemma {:induction false} ChainDerives(policy: Policy, tuples: seq<Tuple>, rules: seq<Rewrite>, query: Query,
                                        g: Goal, path: seq<Goal>, hops: nat)
    requires CompiledFrom(policy, tuples, rules) && GrantsWithin(policy, query, g, path, hops)
    ensures Derives(tuples, rules, query, g, hops)
    decreases |path|
  {
    hide Successors, Succeeds, CompiledFrom, HeldRow, RowHop;
    if |path| == 1 {
      SuccessMeaning(policy, tuples, rules, query, g);
    } else {
      ChainTail(policy, query, g, path);
      HopIsRowHop(policy, tuples, rules, query, g, path[1]);
      assert path[1..][|path[1..]| - 1] == path[|path| - 1];
      ChainDerives(policy, tuples, rules, query, path[1], path[1..], hops - 1);
    }
  }

  lemma HopIsRowHop(policy: Policy, tuples: seq<Tuple>, rules: seq<Rewrite>, query: Query, g: Goal, h: Goal)
    requires CompiledFrom(policy, tuples, rules)
    ensures h in Successors(policy, query, g) <==> RowHop(tuples, rules, query, g, h)
  {
    HopMeaning(policy, tuples, rules, query, g, h);
  }

  lemma {:induction false} DerivesChain(policy: Policy, tuples: seq<Tuple>, rules: seq<Rewrite>, query: Query,
                                        g: Goal, hops: nat) returns (path: seq<Goal>)
    requires CompiledFrom(policy, tuples, rules) && Derives(tuples, rules, query, g, hops)
    ensures GrantsWithin(policy, query, g, path, hops)
    decreases hops
  {
    hide Successors, Succeeds, CompiledFrom, HeldRow, RowHop;
    if HeldRow(tuples, query.subjects, g) {
      SuccessMeaning(policy, tuples, rules, query, g);
      path := [g];
    } else {
      var h :| RowHop(tuples, rules, query, g, h) && Derives(tuples, rules, query, h, hops - 1);
      HopIsRowHop(policy, tuples, rules, query, g, h);
      var rest := DerivesChain(policy, tuples, rules, query, h, hops - 1);
      ChainCons(policy, query, g, rest);
      path := [g] + rest;
    }
  }

  /** Some chain grants a root exactly when it follows from the rows within the depth bound. */
  lemma GrantsOnRows(policy: Policy, tuples: seq<Tuple>, rules: seq<Rewrite>, query: Query, root: Goal)
    requires CompiledFrom(policy, tuples, rules)
    ensures (exists path :: Grants(policy, query, root, path)) <==> Derives(tuples, rules, query, root, query.maxDepth)
  {
    hide Successors, Succeeds, CompiledFrom, Derives;
    if path :| Grants(policy, query, root, path) {
      ChainDerives(policy, tuples, rules, query, root, path, query.maxDepth);
    }
    if Derives(tuples, rules, query, root, query.maxDepth) {
      var path := DerivesChain(policy, tuples, rules, query, root, query.maxDepth);
      assert Grants(policy, query, root, path);
    }
  }
}
