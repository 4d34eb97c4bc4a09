/**
 * A whole check read off the rows of the policy database.
 *
 * Tuples, rewrite rules, view bindings and view definitions on one side; the verdict of a check of the compiled policy
 * on the other. Nothing here names the compiled indexes.
 */
module Access {
  import opened Options
  import opened Policy
  import opened Walk
  import opened Check
  import opened Views
  import opened CutShort

  datatype Rows = Rows(tuples: seq<Tuple>, rules: seq<Rewrite>, bindings: seq<Binding>, views: seq<ViewDef>)

  /** What compiling the rows promises of the compiled policy. */
  ghost predicate Compiles(rows: Rows, policy: Policy, bindings: BindingIndex, views: ViewTable) {
    && CompiledFrom(policy, rows.tuples, rows.rules)
    && (forall rel, o :: BindingAt(bindings, rel, o) == LastBinding(rows.bindings, rel, o))
    && (forall name :: ViewAt(views, name) == LastView(rows.views, name))
  }

  // ---------------------------------------------------------------------
  // Bindings and views, on rows
  // ---------------------------------------------------------------------

  predicate Binds(b: Binding, relation: string, o: ObjectRef) { b.relation == relation && b.object_ == o }

  ghost predicate LastBinds(rows: seq<Binding>, k: nat, relation: string, o: ObjectRef) {
    && k < |rows| && Binds(rows[k], relation, o)
    && forall j :: k < j < |rows| ==> !Binds(rows[j], relation, o)
  }

  /** The row that binds a goal: the last for its own object, or with none the last for every object of its kind. */
  ghost predicate BoundBy(rows: seq<Binding>, g: Goal, k: nat) {
    || LastBinds(rows, k, g.relation, g.object_)
    || (&& (forall b :: b in rows ==> !Binds(b, g.relation, g.object_))
        && LastBinds(rows, k, g.relation, ObjectRef(g.object_.kind, "*")))
  }

  lemma {:induction false} LastBindingAt(rows: seq<Binding>, relation: string, o: ObjectRef)
    ensures LastBinding(rows, relation, o).None? <==> forall b :: b in rows ==> !Binds(b, relation, o)
    ensures forall k: nat :: LastBinds(rows, k, relation, o) ==> LastBinding(rows, relation, o) == Some(rows[k])
    ensures LastBinding(rows, relation, o).Some? ==> exists k: nat :: LastBinds(rows, k, relation, o)
    decreases |rows|
  {
    if rows != [] {
      var n := |rows| - 1;
      assert rows == rows[..n] + [rows[n]];
      if Binds(rows[n], relation, o) {
        assert rows[n] in rows && LastBinds(rows, n, relation, o);
      } else {
        LastBindingAt(rows[..n], relation, o);
        forall k: nat | LastBinds(rows, k, relation, o) ensures LastBinds(rows[..n], k, relation, o) {}
        if LastBinding(rows, relation, o).Some? {
          var k: nat :| LastBinds(rows[..n], k, relation, o);
          assert LastBinds(rows, k, relation, o);
        }
      }
    }
  }

  /** The compiled lookup finds exactly the row that binds the goal. */
  lemma BindingOnRows(rows: Rows, policy: Policy, bindings: BindingIndex, views: ViewTable, g: Goal)
    requires Compiles(rows, policy, bindings, views)
    ensures forall k: nat :: BoundBy(rows.bindings, g, k) ==>
      k < |rows.bindings| && BindingFor(bindings, g.relation, g.object_) == Some(rows.bindings[k])
    ensures BindingFor(bindings, g.relation, g.object_).Some? ==> exists k: nat :: BoundBy(rows.bindings, g, k)
  {
    hide CompiledFrom, LastBinding, LastView;
    var own, every := g.object_, ObjectRef(g.object_.kind, "*");
    LastBindingAt(rows.bindings, g.relation, own);
    LastBindingAt(rows.bindings, g.relation, every);
    assert BindingAt(bindings, g.relation, own) == LastBinding(rows.bindings, g.relation, own);
    assert BindingAt(bindings, g.relation, every) == LastBinding(rows.bindings, g.relation, every);
    if BindingAt(bindings, g.relation, own).Some? {
      var k: nat :| LastBinds(rows.bindings, k, g.relation, own);
      assert BoundBy(rows.bindings, g, k) && rows.bindings[k] in rows.bindings;
    } else if BindingAt(bindings, g.relation, every).Some? {
      var k: nat :| LastBinds(rows.bindings, k, g.relation, every);
      assert BoundBy(rows.bindings, g, k);
    }
  }

  ghost predicate LastDefines(defs: seq<ViewDef>, d: nat, name: string) {
    && d < |defs| && defs[d].name == name
    && forall j :: d < j < |defs| ==> defs[j].name != name
  }

  lemma {:induction false} LastViewAt(defs: seq<ViewDef>, name: string)
    ensures forall d: nat :: LastDefines(defs, d, name) ==>
      d < |defs| && LastView(defs, name) == Some(CompiledView(Build(defs[d]), GrantOf(defs[d])))
    ensures LastView(defs, name).Some? ==> exists d: nat :: LastDefines(defs, d, name)
    decreases |defs|
  {
    hide Build, GrantOf;
    if defs != [] {
      var n := |defs| - 1;
      assert defs == defs[..n] + [defs[n]];
      if defs[n].name == name {
        assert LastDefines(defs, n, name);
      } else {
        LastViewAt(defs[..n], name);
        forall d: nat | LastDefines(defs, d, name) ensures LastDefines(defs[..n], d, name) {}
        if LastView(defs, name).Some? {
          var d: nat :| LastDefines(defs[..n], d, name);
          assert LastDefines(defs, d, name);
        }
      }
    }
  }

  /** The same attribute, whether or not either spelling carries its leading colon. */
  predicate SameAttribute(a: string, b: string) {
    || a == b
    || (!(|a| > 0 && a[0] == ':') && b == ":" + a)
    || (!(|b| > 0 && b[0] == ':') && a == ":" + b)
  }

  /** A definition shows exactly the attributes it lists, all but those, or everything. */
  predicate DefShows(d: ViewDef, attribute: string) {
    match d.kind
    case None => true
    case Some(AttributeAllowlist) => exists n :: n in d.attributes && SameAttribute(n, attribute)
    case Some(AttributeDenylist) => forall n :: n in d.attributes ==> !SameAttribute(n, attribute)
  }

  predicate DefUnlocks(d: ViewDef, key: string) { d.keys == [] || key in d.keys }

  lemma NormalizeIsSame(a: string, b: string)
    ensures Normalize(a) == Normalize(b) <==> SameAttribute(a, b)
  {
    if |a| > 0 && a[0] == ':' && !(|b| > 0 && b[0] == ':') {
      if a == ":" + b { assert Normalize(a) == Normalize(b); }
    }
    if !(|a| > 0 && a[0] == ':') && !(|b| > 0 && b[0] == ':') {
      assert a == (":" + a)[1..] && b == (":" + b)[1..];
    }
  }

  lemma NormalizedMembers(attributes: seq<string>, attribute: string)
    ensures Normalize(attribute) in Normalized(attributes)
            <==> exists n :: n in attributes && SameAttribute(n, attribute)
  {
    hide Normalize, SameAttribute;
    forall n ensures Normalize(n) == Normalize(attribute) <==> SameAttribute(n, attribute) {
      NormalizeIsSame(n, attribute);
    }
  }

  /** A compiled definition admits what the definition shows and permits what it unlocks. */
  lemma CompiledShows(d: ViewDef, attribute: string, key: string)
    ensures Admits(Some(CompiledView(Build(d), GrantOf(d))), attribute) <==> DefShows(d, attribute)
    ensures Permits(Some(CompiledView(Build(d), GrantOf(d))), key) <==> DefUnlocks(d, key)
  {
    hide Normalize, SameAttribute, Normalized;
    NormalizedMembers(d.attributes, attribute);
  }

  // ---------------------------------------------------------------------
  // What a goal shows, on rows
  // ---------------------------------------------------------------------

  ghost predicate GoalUnfiltered(rows: Rows, g: Goal) {
    exists k: nat :: BoundBy(rows.bindings, g, k) && rows.bindings[k].unfiltered
  }

  /** Definition `d` is the view of the row that binds the goal. */
  ghost predicate GoalViewedBy(rows: Rows, g: Goal, k: nat, d: nat) {
    && BoundBy(rows.bindings, g, k) && rows.bindings[k].view.Some?
    && LastDefines(rows.views, d, rows.bindings[k].view.value)
  }

  ghost predicate GoalShows(rows: Rows, g: Goal, attribute: string) {
    forall k: nat, d: nat :: GoalViewedBy(rows, g, k, d) ==> DefShows(rows.views[d], attribute)
  }

  ghost predicate GoalUnlocks(rows: Rows, g: Goal, key: string) {
    forall k: nat, d: nat :: GoalViewedBy(rows, g, k, d) ==> DefUnlocks(rows.views[d], key)
  }

  /** The compiled view of a goal is that of the definition it is bound to, if any. */
  lemma ViewOnRows(rows: Rows, policy: Policy, bindings: BindingIndex, views: ViewTable, g: Goal)
    requires Compiles(rows, policy, bindings, views)
    ensures UnfilteredOn(bindings, g) <==> GoalUnfiltered(rows, g)
    ensures forall k: nat, d: nat :: GoalViewedBy(rows, g, k, d) ==>
      && d < |rows.views|
      && ViewOn(bindings, views, g) == Some(CompiledView(Build(rows.views[d]), GrantOf(rows.views[d])))
    ensures ViewOn(bindings, views, g).Some? ==> exists k: nat, d: nat :: GoalViewedBy(rows, g, k, d)
  {
    hide CompiledFrom, LastBinding, LastView, BindingFor, BoundBy, LastDefines, Build, GrantOf;
    BindingOnRows(rows, policy, bindings, views, g);
    var b := BindingFor(bindings, g.relation, g.object_);
    if b.Some? {
      var k: nat :| BoundBy(rows.bindings, g, k);
      assert b == Some(rows.bindings[k]);
      if b.value.view.Some? {
        var name := b.value.view.value;
        LastViewAt(rows.views, name);
        assert ViewAt(views, name) == LastView(rows.views, name);
        if name in views {
          var d: nat :| LastDefines(rows.views, d, name);
          assert GoalViewedBy(rows, g, k, d);
        }
      }
    }
  }

  lemma GoalOnRows(rows: Rows, policy: Policy, bindings: BindingIndex, views: ViewTable, g: Goal, attribute: string,
                   key: string)
    requires Compiles(rows, policy, bindings, views)
    ensures Admits(ViewOn(bindings, views, g), attribute) <==> GoalShows(rows, g, attribute)
    ensures Permits(ViewOn(bindings, views, g), key) <==> GoalUnlocks(rows, g, key)
  {
    hide Compiles, UnfilteredOn, ViewOn, GoalViewedBy, GoalUnfiltered, Admits, Permits, Build, GrantOf, DefShows;
    hide DefUnlocks;
    ViewOnRows(rows, policy, bindings, views, g);
    forall k: nat, d: nat | GoalViewedBy(rows, g, k, d)
      ensures Admits(ViewOn(bindings, views, g), attribute) <==> DefShows(rows.views[d], attribute)
      ensures Permits(ViewOn(bindings, views, g), key) <==> DefUnlocks(rows.views[d], key)
    {
      CompiledShows(rows.views[d], attribute, key);
    }
    if ViewOn(bindings, views, g).None? { NoViewShowsAll(attribute, key); }
  }

  lemma NoViewShowsAll(attribute: string, key: string)
    ensures Admits(None, attribute) && Permits(None, key)
  {}

  // ---------------------------------------------------------------------
  // The whole check, on rows
  // ---------------------------------------------------------------------

  /** A relation and object asked about that the rows derive. */
  ghost predicate Reached(rows: Rows, query: Query, objects: seq<ObjectRef>, relations: seq<string>, g: Goal) {
    && g.object_ in objects && g.relation in relations
    && Derives(rows.tuples, rows.rules, query, g, query.maxDepth)
  }

  ghost predicate AnyReached(rows: Rows, query: Query, objects: seq<ObjectRef>, relations: seq<string>) {
    exists g :: Reached(rows, query, objects, relations, g)
  }

  ghost predicate ReachedUnfiltered(rows: Rows, query: Query, objects: seq<ObjectRef>, relations: seq<string>) {
    exists g :: Reached(rows, query, objects, relations, g) && GoalUnfiltered(rows, g)
  }

  ghost predicate ReachedShow(rows: Rows, query: Query, objects: seq<ObjectRef>, relations: seq<string>,
                              attribute: string) {
    forall g :: Reached(rows, query, objects, relations, g) ==> GoalShows(rows, g, attribute)
  }

  ghost predicate ReachedUnlock(rows: Rows, query: Query, objects: seq<ObjectRef>, relations: seq<string>,
                                key: string) {
    forall g :: Reached(rows, query, objects, relations, g) ==> GoalUnlocks(rows, g, key)
  }

  /** The derivable roots are the pairs asked about that the rows derive. */
  lemma ReachedRoots(rows: Rows, policy: Policy, query: Query, objects: seq<ObjectRef>, relations: seq<string>, g: Goal)
    requires CompiledFrom(policy, rows.tuples, rows.rules)
    ensures g in DerivableRoots(policy, query, Roots(objects, relations))
            <==> Reached(rows, query, objects, relations, g)
  {
    hide CompiledFrom, Roots, DerivableRoots, Grants, Derives;
    DerivableRootsMembers(policy, query, Roots(objects, relations));
    RootsMembers(objects, relations, g);
    GrantsOnRows(policy, rows.tuples, rows.rules, query, g);
  }

  lemma ShownOnRows(rows: Rows, policy: Policy, bindings: BindingIndex, views: ViewTable, query: Query,
                    objects: seq<ObjectRef>, relations: seq<string>)
    requires Compiles(rows, policy, bindings, views)
    ensures var roots := DerivableRoots(policy, query, Roots(objects, relations));
            && (RootsUnfiltered(bindings, roots) <==> ReachedUnfiltered(rows, query, objects, relations))
            && (forall a :: RootsAdmit(bindings, views, roots, a) <==> ReachedShow(rows, query, objects, relations, a))
            && (forall k :: RootsPermit(bindings, views, roots, k)
                  <==> ReachedUnlock(rows, query, objects, relations, k))
  {
    hide CompiledFrom, Roots, DerivableRoots, Reached, GoalUnfiltered, GoalShows, GoalUnlocks, UnfilteredOn, ViewOn;
    hide Admits, Permits, LastBinding, LastView;
    var roots := DerivableRoots(policy, query, Roots(objects, relations));
    forall g ensures g in roots <==> Reached(rows, query, objects, relations, g) {
      ReachedRoots(rows, policy, query, objects, relations, g);
    }
    forall g ensures UnfilteredOn(bindings, g) <==> GoalUnfiltered(rows, g) {
      ViewOnRows(rows, policy, bindings, views, g);
    }
    forall g, a ensures Admits(ViewOn(bindings, views, g), a) <==> GoalShows(rows, g, a) {
      GoalOnRows(rows, policy, bindings, views, g, a, a);
    }
    forall g, k ensures Permits(ViewOn(bindings, views, g), k) <==> GoalUnlocks(rows, g, k) {
      GoalOnRows(rows, policy, bindings, views, g, k, k);
    }
  }

  /**
   * A check within its budget grants exactly when the rows derive some relation asked about on some object asked about.
   * It then shows an attribute exactly when one of those is bound unfiltered or the views of all of them show it, and
   * unlocks a key exactly when the same holds of keys.
   */
  lemma AccessIsExact(rows: Rows, policy: Policy, bindings: BindingIndex, views: ViewTable, query: Query,
                      objects: seq<ObjectRef>, relations: seq<string>, maxVisited: nat, v: Verdict)
    requires Compiles(rows, policy, bindings, views)
    requires Decided(policy, bindings, views, query, objects, relations, maxVisited, v)
    requires !Collect(policy, query, Roots(objects, relations), maxVisited).exhausted
    ensures v.Granted? <==> AnyReached(rows, query, objects, relations)
    ensures v.Granted? ==>
      forall a :: Shows(v.outcome, a)
        <==> ReachedUnfiltered(rows, query, objects, relations) || ReachedShow(rows, query, objects, relations, a)
    ensures v.Granted? ==>
      forall k :: Unlocks(v.outcome, k)
        <==> ReachedUnfiltered(rows, query, objects, relations) || ReachedUnlock(rows, query, objects, relations, k)
  {
    hide CompiledFrom, Roots, DerivableRoots, Collect, RootsOf, Reached, RootsUnfiltered, RootsAdmit, RootsPermit;
    hide ReachedUnfiltered, ReachedShow, ReachedUnlock, Shows, Unlocks, AnyUnfiltered, AllAdmit, AllPermit, Justified;
    var matches := Collect(policy, query, Roots(objects, relations), maxVisited).matches;
    CheckIsExact(policy, query, Roots(objects, relations), maxVisited);
    ShownByRoots(bindings, views, matches);
    ShownOnRows(rows, policy, bindings, views, query, objects, relations);
    SomeReached(rows, policy, query, objects, relations, matches);
  }

  lemma SomeReached(rows: Rows, policy: Policy, query: Query, objects: seq<ObjectRef>, relations: seq<string>,
                    matches: seq<Match>)
    requires CompiledFrom(policy, rows.tuples, rows.rules)
    requires RootsOf(matches) == DerivableRoots(policy, query, Roots(objects, relations))
    ensures AnyReached(rows, query, objects, relations) <==> matches != []
    ensures relations == [] ==> matches == []
  {
    hide CompiledFrom, DerivableRoots, Derives, Roots;
    var roots := DerivableRoots(policy, query, Roots(objects, relations));
    if matches != [] {
      assert RootsOf(matches)[0] in roots;
      ReachedRoots(rows, policy, query, objects, relations, RootsOf(matches)[0]);
    }
    if g :| Reached(rows, query, objects, relations, g) { ReachedRoots(rows, policy, query, objects, relations, g); }
  }
}
