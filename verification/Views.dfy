/** Attribute filters and key grants, and how the views of several matches combine. */
module Views {
  import opened Options
  import opened Policy
  import opened Walk
  import opened Check

  function Normalize(attribute: string): string {
    if attribute != [] && attribute[0] == ':' then attribute else ":" + attribute
  }

  datatype Filter = Allowlist(allowed: set<string>) | Denylist(denied: set<string>) | Intersection(parts: seq<Filter>)

  /** `attribute_visible`. */
  predicate Visible(filter: Filter, attribute: string) {
    match filter
    case Allowlist(allowed) => Normalize(attribute) in allowed
    case Denylist(denied) => Normalize(attribute) !in denied
    case Intersection(parts) => forall p :: p in parts ==> Visible(p, attribute)
  }

  predicate AllVisible(filters: seq<Filter>, attribute: string) { forall f :: f in filters ==> Visible(f, attribute) }

  /** `combine`: no filter, the only one, or the conjunction. */
  function Combine(filters: seq<Filter>): (r: Option<Filter>)
    ensures r.None? <==> filters == []
    ensures r.Some? ==> forall a :: Visible(r.value, a) <==> AllVisible(filters, a)
  {
    if filters == [] then None else if |filters| == 1 then Some(filters[0]) else Some(Intersection(filters))
  }

  datatype KeyGrant = Unrestricted | Only(keys: set<string>)

  predicate Allows(grant: KeyGrant, key: string) { grant.Unrestricted? || key in grant.keys }

  /** `KeyGrant::intersect`: a key passes the intersection exactly when it passes both. */
  function Intersect(x: KeyGrant, y: KeyGrant): (r: KeyGrant)
    ensures forall k :: Allows(r, k) <==> Allows(x, k) && Allows(y, k)
    ensures r.Unrestricted? <==> x.Unrestricted? && y.Unrestricted?
  {
    if x.Unrestricted? then y else if y.Unrestricted? then x else Only(x.keys * y.keys)
  }

  datatype CompiledView = CompiledView(filter: Option<Filter>, keys: KeyGrant)

  type ViewTable = map<string, CompiledView>

  // ---------------------------------------------------------------------
  // View definitions
  // ---------------------------------------------------------------------

  datatype FilterKind = AttributeAllowlist | AttributeDenylist

  datatype ViewDef = ViewDef(name: string, kind: Option<FilterKind>, attributes: seq<string>, keys: seq<string>)

  function Normalized(attributes: seq<string>): set<string> { set a | a in attributes :: Normalize(a) }

  /** `build`: no filter unless the definition names a kind. */
  function Build(d: ViewDef): Option<Filter> {
    match d.kind
    case None => None
    case Some(AttributeAllowlist) => Some(Allowlist(Normalized(d.attributes)))
    case Some(AttributeDenylist) => Some(Denylist(Normalized(d.attributes)))
  }

  /** `key_grant`: naming no key restricts none. */
  function GrantOf(d: ViewDef): KeyGrant {
    if d.keys == [] then Unrestricted else Only(set k | k in d.keys)
  }

  /** The last definition of a name, compiled. */
  function LastView(defs: seq<ViewDef>, name: string): Option<CompiledView> {
    if defs == [] then None
    else if defs[|defs| - 1].name == name
    then Some(CompiledView(Build(defs[|defs| - 1]), GrantOf(defs[|defs| - 1])))
    else LastView(defs[..|defs| - 1], name)
  }

  function ViewAt(views: ViewTable, name: string): Option<CompiledView> {
    if name in views then Some(views[name]) else None
  }

  /** `read_views`: a later definition of a name replaces an earlier one. */
  method CompileViews(defs: seq<ViewDef>) returns (views: ViewTable)
    ensures forall name :: ViewAt(views, name) == LastView(defs, name)
  {
    hide Build, GrantOf;
    views := map[];
    for i := 0 to |defs|
      invariant forall name :: ViewAt(views, name) == LastView(defs[..i], name)
    {
      assert defs[..i + 1][..i] == defs[..i];
      views := views[defs[i].name := CompiledView(Build(defs[i]), GrantOf(defs[i]))];
    }
    assert defs[..|defs|] == defs;
  }

  datatype Outcome = Allow | AllowFiltered(filter: Option<Filter>, keys: KeyGrant, names: seq<string>)

  predicate Shows(outcome: Outcome, attribute: string) {
    outcome.Allow? || outcome.filter.None? || Visible(outcome.filter.value, attribute)
  }

  predicate Unlocks(outcome: Outcome, key: string) { outcome.Allow? || Allows(outcome.keys, key) }

  // ---------------------------------------------------------------------
  // What a match's binding says
  // ---------------------------------------------------------------------

  function BindingOf(bindings: BindingIndex, m: Match): Option<Binding> {
    BindingFor(bindings, m.root.relation, m.root.object_)
  }

  predicate UnfilteredOn(bindings: BindingIndex, g: Goal) {
    var b := BindingFor(bindings, g.relation, g.object_);
    b.Some? && b.value.unfiltered
  }

  predicate Unfiltered(bindings: BindingIndex, m: Match) { UnfilteredOn(bindings, m.root) }

  /** The view bound to a root, when it names one. */
  function ViewOn(bindings: BindingIndex, views: ViewTable, g: Goal): Option<CompiledView> {
    var b := BindingFor(bindings, g.relation, g.object_);
    if b.Some? && b.value.view.Some? && b.value.view.value in views then Some(views[b.value.view.value]) else None
  }

  function ViewOf(bindings: BindingIndex, views: ViewTable, m: Match): Option<CompiledView> {
    ViewOn(bindings, views, m.root)
  }

  predicate Admits(view: Option<CompiledView>, attribute: string) {
    view.None? || view.value.filter.None? || Visible(view.value.filter.value, attribute)
  }

  predicate Permits(view: Option<CompiledView>, key: string) { view.None? || Allows(view.value.keys, key) }

  ghost predicate AnyUnfiltered(bindings: BindingIndex, matches: seq<Match>) {
    exists m :: m in matches && Unfiltered(bindings, m)
  }

  ghost predicate AllAdmit(bindings: BindingIndex, views: ViewTable, matches: seq<Match>, attribute: string) {
    forall m :: m in matches ==> Admits(ViewOf(bindings, views, m), attribute)
  }

  ghost predicate AllPermit(bindings: BindingIndex, views: ViewTable, matches: seq<Match>, key: string) {
    forall m :: m in matches ==> Permits(ViewOf(bindings, views, m), key)
  }

  /** Visible exactly when some match is bound unfiltered, or every bound view among the matches admits it. */
  ghost predicate Exactly(bindings: BindingIndex, views: ViewTable, matches: seq<Match>, outcome: Outcome) {
    && (forall a :: Shows(outcome, a) <==> AnyUnfiltered(bindings, matches) || AllAdmit(bindings, views, matches, a))
    && (forall k :: Unlocks(outcome, k) <==> AnyUnfiltered(bindings, matches) || AllPermit(bindings, views, matches, k))
  }

  /** The view of a match restricts something. */
  predicate Restricts(bindings: BindingIndex, views: ViewTable, m: Match) {
    var view := ViewOf(bindings, views, m);
    view.Some? && (view.value.filter.Some? || !view.value.keys.Unrestricted?)
  }

  ghost predicate AnyRestricts(bindings: BindingIndex, views: ViewTable, matches: seq<Match>) {
    exists m :: m in matches && Restricts(bindings, views, m)
  }

  /** The names of the views bound to the matches, in turn. */
  function BoundNames(bindings: BindingIndex, views: ViewTable, matches: seq<Match>): seq<string> {
    if matches == [] then [] else
    var before, m := BoundNames(bindings, views, matches[..|matches| - 1]), matches[|matches| - 1];
    if ViewOf(bindings, views, m).Some? then before + [BindingOf(bindings, m).value.view.value] else before
  }

  /** Unfiltered exactly when some match is bound so or none restricts; otherwise the views combined are named. */
  ghost predicate Labelled(bindings: BindingIndex, views: ViewTable, matches: seq<Match>, outcome: Outcome) {
    && (outcome.Allow? <==> AnyUnfiltered(bindings, matches) || !AnyRestricts(bindings, views, matches))
    && (outcome.AllowFiltered? ==> outcome.names == BoundNames(bindings, views, matches))
  }

  /** `combine_views`: one pass over the matches. */
  method CombineViews(bindings: BindingIndex, views: ViewTable, matches: seq<Match>) returns (outcome: Outcome)
    ensures Exactly(bindings, views, matches, outcome) && Labelled(bindings, views, matches, outcome)
  {
    hide Visible, AllVisible, AllAdmit, AllPermit, ViewOf, BindingFor, AnyRestricts, BoundNames;
    var filters: seq<Filter>, names: seq<string>, keys := [], [], Unrestricted;
    NoMatches(bindings, views);
    for i := 0 to |matches|
      invariant !AnyUnfiltered(bindings, matches[..i])
      invariant forall a :: AllVisible(filters, a) <==> AllAdmit(bindings, views, matches[..i], a)
      invariant forall k :: Allows(keys, k) <==> AllPermit(bindings, views, matches[..i], k)
      invariant filters == [] && keys.Unrestricted? <==> !AnyRestricts(bindings, views, matches[..i])
      invariant names == BoundNames(bindings, views, matches[..i])
    {
      var m := matches[i];
      var b := BindingOf(bindings, m);
      assert matches[..i + 1] == matches[..i] + [m];
      MatchesGrow(bindings, views, matches[..i], m);
      RestrictsMore(bindings, views, matches[..i], m);
      if b.None? { continue; }
      if b.value.unfiltered {
        assert m in matches && Unfiltered(bindings, m);
        return Allow;
      }
      if b.value.view.Some? && b.value.view.value in views {
        var compiled := views[b.value.view.value];
        if compiled.filter.Some? {
          FiltersGrow(filters, compiled.filter.value);
          filters := filters + [compiled.filter.value];
        }
        keys := Intersect(keys, compiled.keys);
        names := names + [b.value.view.value];
      }
    }
    assert matches[..|matches|] == matches;
    NoFilters();
    var filter := Combine(filters);
    if filter.None? && keys.Unrestricted? { return Allow; }
    outcome := AllowFiltered(filter, keys, names);
  }

  lemma NoFilters()
    ensures forall a :: AllVisible([], a)
  {}

  lemma NoMatches(bindings: BindingIndex, views: ViewTable)
    ensures forall a :: AllVisible([], a) && AllAdmit(bindings, views, [], a)
    ensures forall k :: AllPermit(bindings, views, [], k)
    ensures !AnyRestricts(bindings, views, []) && BoundNames(bindings, views, []) == []
  {}

  lemma RestrictsMore(bindings: BindingIndex, views: ViewTable, matches: seq<Match>, m: Match)
    ensures AnyRestricts(bindings, views, matches + [m])
            <==> AnyRestricts(bindings, views, matches) || Restricts(bindings, views, m)
    ensures BoundNames(bindings, views, matches + [m])
            == BoundNames(bindings, views, matches)
               + if ViewOf(bindings, views, m).Some? then [BindingOf(bindings, m).value.view.value] else []
  {
    hide Restricts;
    assert (matches + [m])[..|matches|] == matches;
    if u :| u in matches && Restricts(bindings, views, u) { assert u in matches + [m]; }
    if Restricts(bindings, views, m) { assert m in matches + [m]; }
  }

  lemma FiltersGrow(filters: seq<Filter>, f: Filter)
    ensures forall a :: AllVisible(filters + [f], a) <==> AllVisible(filters, a) && Visible(f, a)
  {}

  lemma MatchesGrow(bindings: BindingIndex, views: ViewTable, matches: seq<Match>, m: Match)
    ensures forall a :: AllAdmit(bindings, views, matches + [m], a)
              <==> AllAdmit(bindings, views, matches, a) && Admits(ViewOf(bindings, views, m), a)
    ensures forall k :: AllPermit(bindings, views, matches + [m], k)
              <==> AllPermit(bindings, views, matches, k) && Permits(ViewOf(bindings, views, m), k)
    ensures ViewOf(bindings, views, m)
            == var b := BindingOf(bindings, m);
               if b.Some? && b.value.view.Some? && b.value.view.value in views
               then Some(views[b.value.view.value]) else None
    ensures AnyUnfiltered(bindings, matches + [m]) <==> AnyUnfiltered(bindings, matches) || Unfiltered(bindings, m)
  {
    hide Visible, BindingFor;
    if AnyUnfiltered(bindings, matches) {
      var u :| u in matches && Unfiltered(bindings, u);
      assert u in matches + [m];
    }
    if Unfiltered(bindings, m) { assert m in matches + [m]; }
  }

  /** Holding one more relation never reveals more, unless that relation is itself bound unfiltered. */
  lemma OneMoreMatch(bindings: BindingIndex, views: ViewTable, matches: seq<Match>, m: Match, before: Outcome,
                     after: Outcome)
    requires matches != [] && !AnyUnfiltered(bindings, matches) && !Unfiltered(bindings, m)
    requires Exactly(bindings, views, matches, before) && Exactly(bindings, views, matches + [m], after)
    ensures forall a :: Shows(after, a) ==> Shows(before, a)
    ensures forall k :: Unlocks(after, k) ==> Unlocks(before, k)
  {
    hide Shows, Unlocks, Admits, Permits, ViewOf;
    MatchesGrow(bindings, views, matches, m);
  }

  /**
   * Raising the budget of a granted check never reveals more, unless it finds a relation bound unfiltered: a check cut
   * short sees at least what the finished one would.
   */
  lemma MoreBudgetNarrows(policy: Policy, bindings: BindingIndex, views: ViewTable, query: Query, roots: seq<Goal>,
                          budget: nat, more: nat, before: Outcome, after: Outcome)
    requires budget <= more && Collect(policy, query, roots, budget).matches != []
    requires Exactly(bindings, views, Collect(policy, query, roots, budget).matches, before)
    requires Exactly(bindings, views, Collect(policy, query, roots, more).matches, after)
    requires !AnyUnfiltered(bindings, Collect(policy, query, roots, more).matches)
    ensures forall a :: Shows(after, a) ==> Shows(before, a)
    ensures forall k :: Unlocks(after, k) ==> Unlocks(before, k)
  {
    hide Collect, ViewOf, Admits, Permits, Unfiltered, Shows, Unlocks;
    MoreBudgetExtends(policy, query, roots, budget, more);
    var few, all := Collect(policy, query, roots, budget).matches, Collect(policy, query, roots, more).matches;
    assert forall m :: m in few ==> m in all;
  }

  /** Compilation leaves no binding to an undefined view, so a binding that names a view always imposes it. */
  lemma BoundViewsImpose(bindings: BindingIndex, views: ViewTable, m: Match)
    requires forall k :: k in bindings ==> ViewDefined(bindings[k], views.Keys)
    requires BindingOf(bindings, m).Some? && BindingOf(bindings, m).value.view.Some?
    ensures BindingOf(bindings, m).value.view.value in views
    ensures ViewOf(bindings, views, m) == Some(views[BindingOf(bindings, m).value.view.value])
  {
    var o := m.root.object_;
    assert (m.root.relation, o) in bindings || (m.root.relation, o.WildcardOfType()) in bindings;
  }

  // ---------------------------------------------------------------------
  // The whole check
  // ---------------------------------------------------------------------

  datatype Verdict = NoPermission | NoPath | OutOfBudget(visited: nat) | Granted(matches: seq<Match>, outcome: Outcome)

  /**
   * What a check answers, from the matches its search collected: all of them and what they show together, or why there
   * are none.
   */
  ghost predicate Decided(policy: Policy, bindings: BindingIndex, views: ViewTable, query: Query,
                          objects: seq<ObjectRef>, relations: seq<string>, maxVisited: nat, v: Verdict) {
    var c := Collect(policy, query, Roots(objects, relations), maxVisited);
    && (v.NoPermission? <==> relations == [])
    && (v.Granted? <==> relations != [] && c.matches != [])
    && (v.OutOfBudget? <==> relations != [] && c.matches == [] && c.exhausted)
    && (v.OutOfBudget? ==> v.visited == maxVisited)
    && (v.Granted? ==>
          && v.matches == c.matches && Exactly(bindings, views, c.matches, v.outcome)
          && Labelled(bindings, views, c.matches, v.outcome))
  }

  /** `check`: deny what no relation could grant, search every root, and combine what the matches may see. */
  method Decide(policy: Policy, bindings: BindingIndex, views: ViewTable, query: Query,
                objects: seq<ObjectRef>, relations: seq<string>, maxVisited: nat) returns (v: Verdict)
    ensures Decided(policy, bindings, views, query, objects, relations, maxVisited, v)
  {
    hide Collect, Exactly, Labelled, Roots;
    if relations == [] { return NoPermission; }
    var matches, visited, exhausted := CollectMatches(policy, query, Roots(objects, relations), maxVisited);
    if matches == [] {
      MoreBudgetExtends(policy, query, Roots(objects, relations), maxVisited, maxVisited);
      return if exhausted then OutOfBudget(visited) else NoPath;
    }
    var outcome := CombineViews(bindings, views, matches);
    v := Granted(matches, outcome);
  }

  lemma {:induction false} DerivableRootsMembers(policy: Policy, query: Query, roots: seq<Goal>)
    ensures forall g :: g in DerivableRoots(policy, query, roots) <==> g in roots && Derivable(policy, query, g)
    decreases |roots|
  {
    hide Derivable;
    if roots != [] { DerivableRootsMembers(policy, query, roots[1..]); }
  }
}
