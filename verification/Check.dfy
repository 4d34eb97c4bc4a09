/** One check: every root goal searched under a shared budget, and what its matches may see. */
module Check {
  import opened Policy
  import opened Walk
  import opened Walker

  datatype Match = Match(root: Goal, subject: SubjectRef, path: seq<Goal>)

  /** The matches collected, the visits spent, and whether the budget ran out. */
  datatype Collected = Collected(matches: seq<Match>, spent: nat, exhausted: bool)

  /** The roots in turn, each search charged to what the ones before it left. */
  function Collect(policy: Policy, query: Query, roots: seq<Goal>, budget: nat): Collected
    decreases |roots|
  {
    if roots == [] then Collected([], 0, false) else
    var (r, n) := SearchFrom(policy, query, roots[0], budget);
    if r.Exhausted? || n > budget then Collected([], n, true) else
    var rest := Collect(policy, query, roots[1..], budget - n);
    Collected((if r.Found? then [Match(roots[0], r.subject, r.path)] else []) + rest.matches, n + rest.spent,
              rest.exhausted)
  }

  function RootsOn(relations: seq<string>, o: ObjectRef): seq<Goal> {
    seq(|relations|, i requires 0 <= i < |relations| => Goal(relations[i], o))
  }

  /** One root goal per object and relation, objects outermost. */
  function Roots(objects: seq<ObjectRef>, relations: seq<string>): seq<Goal> {
    if objects == [] then [] else RootsOn(relations, objects[0]) + Roots(objects[1..], relations)
  }

  /** The order of the two loops: every relation on one object, in turn, before the next object. */
  lemma {:induction false} RootsAt(objects: seq<ObjectRef>, relations: seq<string>, i: nat)
    requires i < |objects|
    ensures Roots(objects, relations)
            == Roots(objects[..i], relations)
               + seq(|relations|, j requires 0 <= j < |relations| => Goal(relations[j], objects[i]))
               + Roots(objects[i + 1..], relations)
    decreases i
  {
    if i == 0 {
      assert objects[..0] == [];
    } else {
      RootsAt(objects[1..], relations, i - 1);
      assert objects[1..][..i - 1] == objects[..i][1..];
      assert objects[1..][i..] == objects[i + 1..];
    }
  }

  lemma {:induction false} RootsMembers(objects: seq<ObjectRef>, relations: seq<string>, g: Goal)
    ensures g in Roots(objects, relations) <==> g.object_ in objects && g.relation in relations
    decreases |objects|
  {
    if objects != [] {
      RootsMembers(objects[1..], relations, g);
      if g.object_ == objects[0] && g.relation in relations {
        var j :| 0 <= j < |relations| && relations[j] == g.relation;
        assert RootsOn(relations, objects[0])[j] == g;
      }
    }
  }

  ghost predicate Derivable(policy: Policy, query: Query, root: Goal) {
    exists path :: Grants(policy, query, root, path)
  }

  /** Each match carries a shortest granting path from its own root. */
  ghost predicate Justified(policy: Policy, query: Query, m: Match) {
    Answers(policy, query, m.root, Found(m.subject, m.path))
  }

  /** One search, as a check uses it. */
  lemma SearchOutcome(policy: Policy, query: Query, root: Goal, budget: nat)
    ensures var (r, n) := SearchFrom(policy, query, root, budget);
            && n <= budget && (r.Exhausted? ==> n == budget)
            && (!r.Exhausted? ==> (r.Found? <==> Derivable(policy, query, root)))
            && (r.Found? ==> Justified(policy, query, Match(root, r.subject, r.path)))
  {
    SearchIsExact(policy, query, root, budget);
  }

  // ---------------------------------------------------------------------
  // The loop
  // ---------------------------------------------------------------------

  /** The loops of `check`: search each root with a fresh walk and a shared budget, stop when it is exhausted. */
  method CollectMatches(policy: Policy, query: Query, roots: seq<Goal>, maxVisited: nat)
    returns (matches: seq<Match>, visited: nat, exhausted: bool)
    ensures Collected(matches, visited, exhausted) == Collect(policy, query, roots, maxVisited)
  {
    hide SearchFrom, Derivable, Justified, Collect;
    var budget := new Budget(maxVisited);
    matches, exhausted := [], false;
    var i := 0;
    assert roots[0..] == roots;
    while i < |roots|
      invariant 0 <= i <= |roots| && budget.Valid() && budget.maxVisited == maxVisited
      invariant !exhausted
      invariant var rest := Collect(policy, query, roots[i..], budget.Left());
                Collect(policy, query, roots, maxVisited)
                == Collected(matches + rest.matches, budget.visited + rest.spent, rest.exhausted)
    {
      CollectStep(policy, query, roots, i, budget.Left(), matches);
      var r := SearchRoot(policy, query, roots[i], budget);
      if r.Exhausted? {
        exhausted := true;
        break;
      }
      if r.Found? { matches := matches + [Match(roots[i], r.subject, r.path)]; }
      i := i + 1;
    }
    if !exhausted {
      assert roots[i..] == [];
      CollectNone(policy, query, budget.Left());
    }
    visited := budget.visited;
  }

  method SearchRoot(policy: Policy, query: Query, root: Goal, budget: Budget) returns (r: Search)
    requires budget.Valid()
    modifies budget
    ensures budget.Valid()
    ensures (r, old(budget.Left()) - budget.Left()) == SearchFrom(policy, query, root, old(budget.Left()))
  {
    var walk := new Walker(policy, query);
    r := walk.Run(root, budget);
  }

  lemma CollectNone(policy: Policy, query: Query, budget: nat)
    ensures Collect(policy, query, [], budget) == Collected([], 0, false)
  {}

  lemma CollectFirst(policy: Policy, query: Query, roots: seq<Goal>, budget: nat)
    requires roots != []
    ensures var (r, n) := SearchFrom(policy, query, roots[0], budget);
            var c := Collect(policy, query, roots, budget);
            if r.Exhausted? || n > budget then c == Collected([], n, true)
            else
              var rest := Collect(policy, query, roots[1..], budget - n);
              var found := if r.Found? then [Match(roots[0], r.subject, r.path)] else [];
              c == Collected(found + rest.matches, n + rest.spent, rest.exhausted)
  {
    hide SearchFrom;
  }

  lemma CollectStep(policy: Policy, query: Query, roots: seq<Goal>, i: nat, budget: nat, matches: seq<Match>)
    requires i < |roots|
    ensures var (r, n) := SearchFrom(policy, query, roots[i], budget);
            var c := Collect(policy, query, roots[i..], budget);
            if r.Exhausted? || n > budget then matches + c.matches == matches && c.spent == n && c.exhausted
            else
              var rest := Collect(policy, query, roots[i + 1..], budget - n);
              var found := if r.Found? then [Match(roots[i], r.subject, r.path)] else [];
              && matches + c.matches == (matches + found) + rest.matches
              && c.spent == n + rest.spent && c.exhausted == rest.exhausted
  {
    hide SearchFrom;
    assert roots[i..][1..] == roots[i + 1..];
  }

  // ---------------------------------------------------------------------
  // What it collects
  // ---------------------------------------------------------------------

  lemma MoreBudgetFinds(policy: Policy, query: Query, root: Goal, budget: nat, more: nat)
    requires budget <= more && !SearchFrom(policy, query, root, budget).0.Exhausted?
    ensures SearchFrom(policy, query, root, more) == SearchFrom(policy, query, root, budget)
  {
    MoreBudget(policy, query, Start(root), 0, budget, more);
  }

  /** Raising the budget only extends the match list, and no more than the budget is ever spent. */
  lemma {:induction false} MoreBudgetExtends(policy: Policy, query: Query, roots: seq<Goal>, budget: nat, more: nat)
    requires budget <= more
    ensures Collect(policy, query, roots, budget).matches <= Collect(policy, query, roots, more).matches
    ensures Collect(policy, query, roots, budget).spent <= budget
    ensures Collect(policy, query, roots, budget).exhausted ==> Collect(policy, query, roots, budget).spent == budget
    ensures !Collect(policy, query, roots, budget).exhausted ==>
              Collect(policy, query, roots, more) == Collect(policy, query, roots, budget)
    decreases |roots|
  {
    hide Collect, SearchFrom, Derivable, Justified;
    if roots == [] {
      CollectNone(policy, query, budget);
      CollectNone(policy, query, more);
    } else {
      CollectFirst(policy, query, roots, budget);
      CollectFirst(policy, query, roots, more);
      SearchOutcome(policy, query, roots[0], budget);
      var (r, n) := SearchFrom(policy, query, roots[0], budget);
      if !r.Exhausted? {
        MoreBudgetFinds(policy, query, roots[0], budget, more);
        MoreBudgetExtends(policy, query, roots[1..], budget - n, more - n);
      }
    }
  }

  /** With a visit for every goal and root a check never runs out. */
  lemma {:induction false} EnoughForAll(policy: Policy, query: Query, roots: seq<Goal>, budget: nat, within: set<Goal>)
    requires Closed(policy, query, within) && forall g :: g in roots ==> g in within
    requires |roots| * |within| <= budget
    ensures !Collect(policy, query, roots, budget).exhausted
    decreases |roots|
  {
    hide Collect, SearchFrom, Closed;
    if roots == [] {
      CollectNone(policy, query, budget);
    } else {
      assert |roots| * |within| == |within| + (|roots| - 1) * |within|;
      CollectFirst(policy, query, roots, budget);
      assert roots[0] in roots && (|roots| - 1) * |within| >= 0;
      EnoughBudget(policy, query, roots[0], budget, within);
      var (r, n) := SearchFrom(policy, query, roots[0], budget);
      EnoughForAll(policy, query, roots[1..], budget - n, within);
    }
  }

  /** The roots that are derivable, in order. */
  ghost function DerivableRoots(policy: Policy, query: Query, roots: seq<Goal>): seq<Goal> {
    if roots == [] then []
    else (if Derivable(policy, query, roots[0]) then [roots[0]] else []) + DerivableRoots(policy, query, roots[1..])
  }

  function RootsOf(matches: seq<Match>): seq<Goal> {
    seq(|matches|, i requires 0 <= i < |matches| => matches[i].root)
  }

  lemma RootsOfNone()
    ensures RootsOf([]) == []
  {}

  lemma RootsOfMore(m: Match, ms: seq<Match>)
    ensures RootsOf([m] + ms) == [m.root] + RootsOf(ms)
  {
    assert ([m] + ms)[1..] == ms;
  }

  /** An unexhausted check collects exactly the derivable roots, in order, each with a shortest path. */
  lemma {:induction false} CheckIsExact(policy: Policy, query: Query, roots: seq<Goal>, budget: nat)
    ensures var c := Collect(policy, query, roots, budget);
            && (forall m :: m in c.matches ==> Justified(policy, query, m))
            && RootsOf(c.matches) <= DerivableRoots(policy, query, roots)
            && (!c.exhausted ==> RootsOf(c.matches) == DerivableRoots(policy, query, roots))
    decreases |roots|
  {
    hide SearchFrom, Derivable, Justified, RootsOf;
    RootsOfNone();
    if roots != [] {
      SearchOutcome(policy, query, roots[0], budget);
      var (r, n) := SearchFrom(policy, query, roots[0], budget);
      if !r.Exhausted? {
        CheckIsExact(policy, query, roots[1..], budget - n);
        var rest := Collect(policy, query, roots[1..], budget - n);
        if r.Found? {
          var m := Match(roots[0], r.subject, r.path);
          RootsOfMore(m, rest.matches);
        } else {
          assert [] + rest.matches == rest.matches;
        }
      }
    }
  }

  /** A check permitted under one budget is permitted under every larger one. */
  lemma PermittedStays(policy: Policy, query: Query, roots: seq<Goal>, budget: nat, more: nat)
    requires budget <= more && Collect(policy, query, roots, budget).matches != []
    ensures Collect(policy, query, roots, more).matches != []
  {
    MoreBudgetExtends(policy, query, roots, budget, more);
  }
}
