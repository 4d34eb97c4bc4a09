/**
 * What a check that ran out of budget shows, against the finished one.
 *
 * The views of the roots it had found are combined, those of the derivable roots past them are not.
 */
module CutShort {
  import opened Options
  import opened Policy
  import opened Walk
  import opened Check
  import opened Views

  // ---------------------------------------------------------------------
  // Views by root
  // ---------------------------------------------------------------------

  ghost predicate RootsUnfiltered(bindings: BindingIndex, roots: seq<Goal>) {
    exists g :: g in roots && UnfilteredOn(bindings, g)
  }

  ghost predicate RootsAdmit(bindings: BindingIndex, views: ViewTable, roots: seq<Goal>, attribute: string) {
    forall g :: g in roots ==> Admits(ViewOn(bindings, views, g), attribute)
  }

  ghost predicate RootsPermit(bindings: BindingIndex, views: ViewTable, roots: seq<Goal>, key: string) {
    forall g :: g in roots ==> Permits(ViewOn(bindings, views, g), key)
  }

  lemma RootOfMatch(matches: seq<Match>, g: Goal)
    ensures g in RootsOf(matches) <==> exists m :: m in matches && m.root == g
  {
    if g in RootsOf(matches) {
      var i :| 0 <= i < |RootsOf(matches)| && RootsOf(matches)[i] == g;
      assert matches[i] in matches;
    }
    if m :| m in matches && m.root == g {
      var i :| 0 <= i < |matches| && matches[i] == m;
      assert RootsOf(matches)[i] == g;
    }
  }

  /** What matches show is what their roots show. */
  lemma ShownByRoots(bindings: BindingIndex, views: ViewTable, matches: seq<Match>)
    ensures AnyUnfiltered(bindings, matches) <==> RootsUnfiltered(bindings, RootsOf(matches))
    ensures forall a :: AllAdmit(bindings, views, matches, a) <==> RootsAdmit(bindings, views, RootsOf(matches), a)
    ensures forall k :: AllPermit(bindings, views, matches, k) <==> RootsPermit(bindings, views, RootsOf(matches), k)
  {
    hide UnfilteredOn, ViewOn, Admits, Permits, RootsOf;
    forall g ensures g in RootsOf(matches) <==> exists m :: m in matches && m.root == g { RootOfMatch(matches, g); }
    if m :| m in matches && Unfiltered(bindings, m) { assert m.root in RootsOf(matches); }
  }

  // ---------------------------------------------------------------------
  // The exact condition
  // ---------------------------------------------------------------------

  /** The roots past those found change nothing of what may be seen. */
  ghost predicate RestAdmits(bindings: BindingIndex, views: ViewTable, found: seq<Goal>, rest: seq<Goal>) {
    || RootsUnfiltered(bindings, found)
    || (if RootsUnfiltered(bindings, rest) then forall a :: RootsAdmit(bindings, views, found, a)
        else forall a :: RootsAdmit(bindings, views, found, a) ==> RootsAdmit(bindings, views, rest, a))
  }

  /** The same for keys. */
  ghost predicate RestPermits(bindings: BindingIndex, views: ViewTable, found: seq<Goal>, rest: seq<Goal>) {
    || RootsUnfiltered(bindings, found)
    || (if RootsUnfiltered(bindings, rest) then forall k :: RootsPermit(bindings, views, found, k)
        else forall k :: RootsPermit(bindings, views, found, k) ==> RootsPermit(bindings, views, rest, k))
  }

  lemma RootsInTwo(bindings: BindingIndex, views: ViewTable, found: seq<Goal>, rest: seq<Goal>)
    ensures RootsUnfiltered(bindings, found + rest)
            <==> RootsUnfiltered(bindings, found) || RootsUnfiltered(bindings, rest)
    ensures forall a :: RootsAdmit(bindings, views, found + rest, a)
              <==> RootsAdmit(bindings, views, found, a) && RootsAdmit(bindings, views, rest, a)
    ensures forall k :: RootsPermit(bindings, views, found + rest, k)
              <==> RootsPermit(bindings, views, found, k) && RootsPermit(bindings, views, rest, k)
  {
    hide UnfilteredOn, ViewOn, Admits, Permits;
    assert forall g :: g in found || g in rest ==> g in found + rest;
  }

  /** The matches under a smaller budget are those of the first derivable roots; a finished check has them all. */
  lemma FoundFirst(policy: Policy, query: Query, roots: seq<Goal>, budget: nat, more: nat)
    requires budget <= more && !Collect(policy, query, roots, more).exhausted
    ensures var all, n := DerivableRoots(policy, query, roots), |Collect(policy, query, roots, budget).matches|;
            && n <= |all| && RootsOf(Collect(policy, query, roots, budget).matches) == all[..n]
            && RootsOf(Collect(policy, query, roots, more).matches) == all
  {
    hide Collect, DerivableRoots, Justified;
    CheckIsExact(policy, query, roots, budget);
    CheckIsExact(policy, query, roots, more);
  }

  /**
   * A check under a smaller budget shows the same attributes as the finished one exactly when the views of the
   * derivable roots past those it found admit whatever the found ones admit; and the same keys exactly when they
   * permit the same.
   */
  lemma CutShortIsExact(policy: Policy, bindings: BindingIndex, views: ViewTable, query: Query, roots: seq<Goal>,
                        budget: nat, more: nat, before: Outcome, after: Outcome)
    requires budget <= more && !Collect(policy, query, roots, more).exhausted
    requires Exactly(bindings, views, Collect(policy, query, roots, budget).matches, before)
    requires Exactly(bindings, views, Collect(policy, query, roots, more).matches, after)
    ensures var all, n := DerivableRoots(policy, query, roots), |Collect(policy, query, roots, budget).matches|;
            && n <= |all|
            && ((forall a :: Shows(before, a) <==> Shows(after, a))
                <==> RestAdmits(bindings, views, all[..n], all[n..]))
            && ((forall k :: Unlocks(before, k) <==> Unlocks(after, k))
                <==> RestPermits(bindings, views, all[..n], all[n..]))
  {
    hide Collect, DerivableRoots, RootsOf, RootsUnfiltered, RootsAdmit, RootsPermit, AnyUnfiltered, AllAdmit, AllPermit;
    hide Shows, Unlocks;
    FoundFirst(policy, query, roots, budget, more);
    var few, full := Collect(policy, query, roots, budget).matches, Collect(policy, query, roots, more).matches;
    var all, n := DerivableRoots(policy, query, roots), |few|;
    ShownByRoots(bindings, views, few); ShownByRoots(bindings, views, full);
    RootsInTwo(bindings, views, all[..n], all[n..]);
    assert all == all[..n] + all[n..];
  }

  // ---------------------------------------------------------------------
  // It can show more
  // ---------------------------------------------------------------------

  /** A root that succeeds outright takes one visit. */
  lemma OneVisit(policy: Policy, query: Query, root: Goal, budget: nat)
    requires Succeeds(policy, query, root)
    ensures var (r, n) := SearchFrom(policy, query, root, budget);
            if budget == 0 then r.Exhausted? && n == 0 else r.Found? && n == 1
  {
    hide Succeeds, SubjectsFor, FirstSatisfying, PathTo, PushAll, Successors, Explore;
    ExploreStep(policy, query, Start(root), 0, budget);
  }

  /** Two such roots: a budget of one finds the first and runs out, a budget of two finds both. */
  lemma OneOfTwo(policy: Policy, query: Query, g: Goal, h: Goal)
    requires Succeeds(policy, query, g) && Succeeds(policy, query, h)
    ensures var few, full := Collect(policy, query, [g, h], 1), Collect(policy, query, [g, h], 2);
            && few.exhausted && |few.matches| == 1 && few.matches[0].root == g
            && !full.exhausted && |full.matches| == 2 && full.matches[0].root == g && full.matches[1].root == h
  {
    hide SearchFrom, Succeeds;
    assert [g, h][1..] == [h] && [h][1..] == [];
    OneVisit(policy, query, g, 1); OneVisit(policy, query, g, 2);
    OneVisit(policy, query, h, 0); OneVisit(policy, query, h, 1);
    CollectNone(policy, query, 0);
    assert |Collect(policy, query, [h], 1).matches| == 1 && Collect(policy, query, [h], 1).matches[0].root == h;
    assert Collect(policy, query, [h], 0).exhausted && Collect(policy, query, [h], 0).matches == [];
  }

  const HIDDEN: string := ":person/salary"

  /** A reader and an auditor of one object, the auditor's view hiding an attribute. */
  lemma CutShortCanShowMore(o: ObjectRef, user: ObjectRef)
    returns (policy: Policy, bindings: BindingIndex, views: ViewTable, query: Query, roots: seq<Goal>,
             before: Outcome, after: Outcome)
    ensures Collect(policy, query, roots, 1).matches != [] && Collect(policy, query, roots, 1).exhausted
    ensures !Collect(policy, query, roots, 2).exhausted
    ensures Exactly(bindings, views, Collect(policy, query, roots, 1).matches, before)
    ensures Exactly(bindings, views, Collect(policy, query, roots, 2).matches, after)
    ensures Shows(before, HIDDEN) && !Shows(after, HIDDEN)
  {
    var self := SubjectRef(user, None);
    policy := Policy(map[(o, "reader") := [self], (o, "auditor") := [self]], map[]);
    query := Query({user}, [], 1);
    roots := [Goal("reader", o), Goal("auditor", o)];
    views := map["masked" := CompiledView(Some(Denylist({HIDDEN})), Unrestricted)];
    bindings := map[("auditor", o) := Binding("auditor", o, Some("masked"), false)];
    before := Allow;
    after := AllowFiltered(Some(Denylist({HIDDEN})), Unrestricted, ["masked"]);
    assert SubjectsFor(policy, o, "reader")[0] == self && SubjectsFor(policy, o, "auditor")[0] == self;
    assert Succeeds(policy, query, roots[0]) && Succeeds(policy, query, roots[1]);
    OneOfTwo(policy, query, roots[0], roots[1]);
    OneView(bindings, views, Collect(policy, query, roots, 1).matches, Collect(policy, query, roots, 2).matches, o);
  }

  lemma OneView(bindings: BindingIndex, views: ViewTable, few: seq<Match>, full: seq<Match>, o: ObjectRef)
    requires views == map["masked" := CompiledView(Some(Denylist({HIDDEN})), Unrestricted)]
    requires bindings == map[("auditor", o) := Binding("auditor", o, Some("masked"), false)]
    requires |few| == 1 && few[0].root == Goal("reader", o)
    requires |full| == 2 && full[0].root == Goal("reader", o) && full[1].root == Goal("auditor", o)
    ensures Exactly(bindings, views, few, Allow)
    ensures Exactly(bindings, views, full, AllowFiltered(Some(Denylist({HIDDEN})), Unrestricted, ["masked"]))
  {
    assert ViewOf(bindings, views, few[0]) == None;
    assert ViewOf(bindings, views, full[0]) == None;
    assert ViewOf(bindings, views, full[1]) == Some(views["masked"]);
    assert forall m :: m in few ==> m == few[0];
    assert forall m :: m in full ==> m == full[0] || m == full[1];
    assert full[1] in full;
  }
}
