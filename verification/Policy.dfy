/** A compiled authorization policy: the indexes a check reads, against the policy rows they came from. */
module Policy {
  import opened Options

  const WILDCARD: string := "*"

  datatype ObjectRef = ObjectRef(kind: string, id: string) {
    function WildcardOfType(): ObjectRef { ObjectRef(kind, WILDCARD) }
    predicate IsWildcard() { id == WILDCARD }
  }

  /** A concrete object, or the userset `object#relation`. */
  datatype SubjectRef = SubjectRef(object_: ObjectRef, relation: Option<string>)

  datatype Tuple = Tuple(subject: SubjectRef, relation: string, object_: ObjectRef)

  /** `relation` holds on an object when `on` holds on whatever its `via` points at. */
  datatype Rewrite = Rewrite(relation: string, via: string, on: string, kind: Option<string>)

  datatype Binding = Binding(relation: string, object_: ObjectRef, view: Option<string>, unfiltered: bool)

  type SubjectIndex = map<(ObjectRef, string), seq<SubjectRef>>

  datatype Policy = Policy(byObject: SubjectIndex, rewrites: map<string, seq<Rewrite>>)

  // ---------------------------------------------------------------------
  // Tuples
  // ---------------------------------------------------------------------

  /** The subjects the rows name on one object and relation, in row order. */
  function SubjectsOn(tuples: seq<Tuple>, o: ObjectRef, relation: string): seq<SubjectRef> {
    if tuples == [] then [] else
    var before, last := SubjectsOn(tuples[..|tuples| - 1], o, relation), tuples[|tuples| - 1];
    if last.object_ == o && last.relation == relation then before + [last.subject] else before
  }

  function At(index: SubjectIndex, o: ObjectRef, relation: string): seq<SubjectRef> {
    if (o, relation) in index then index[(o, relation)] else []
  }

  /** `read_tuples`: the index holds, per object and relation, exactly the rows' subjects in order. */
  method CompileTuples(tuples: seq<Tuple>) returns (index: SubjectIndex)
    ensures forall o, r :: At(index, o, r) == SubjectsOn(tuples, o, r)
  {
    index := map[];
    for i := 0 to |tuples|
      invariant forall o, r :: At(index, o, r) == SubjectsOn(tuples[..i], o, r)
    {
      var key := (tuples[i].object_, tuples[i].relation);
      assert tuples[..i + 1][..i] == tuples[..i];
      index := index[key := At(index, key.0, key.1) + [tuples[i].subject]];
    }
    assert tuples[..|tuples|] == tuples;
  }

  /** `subjects_for`: the object's own subjects, then those of its type wildcard. */
  function SubjectsFor(policy: Policy, o: ObjectRef, relation: string): seq<SubjectRef> {
    At(policy.byObject, o, relation)
    + if o.IsWildcard() then [] else At(policy.byObject, o.WildcardOfType(), relation)
  }

  /** A row applies to an object it names, directly or by its type wildcard. */
  predicate Applies(t: Tuple, o: ObjectRef, relation: string) {
    t.relation == relation && (t.object_ == o || t.object_ == o.WildcardOfType())
  }

  lemma {:induction false} SubjectsOnMembers(tuples: seq<Tuple>, o: ObjectRef, relation: string, s: SubjectRef)
    ensures s in SubjectsOn(tuples, o, relation)
            <==> exists t :: t in tuples && t.object_ == o && t.relation == relation && t.subject == s
    decreases |tuples|
  {
    if tuples != [] {
      SubjectsOnMembers(tuples[..|tuples| - 1], o, relation, s);
      assert tuples == tuples[..|tuples| - 1] + [tuples[|tuples| - 1]];
    }
  }

  /** A subject is found exactly when some row that applies to the object names it. */
  lemma SubjectsForMembers(policy: Policy, tuples: seq<Tuple>, o: ObjectRef, relation: string, s: SubjectRef)
    requires forall o, r :: At(policy.byObject, o, r) == SubjectsOn(tuples, o, r)
    ensures s in SubjectsFor(policy, o, relation)
            <==> exists t :: t in tuples && Applies(t, o, relation) && t.subject == s
  {
    SubjectsOnMembers(tuples, o, relation, s);
    SubjectsOnMembers(tuples, o.WildcardOfType(), relation, s);
    assert o.IsWildcard() ==> o == o.WildcardOfType();
  }

  /** The subjects rows name for one object and relation, from the first row on. */
  function SubjectsNamed(tuples: seq<Tuple>, o: ObjectRef, relation: string): seq<SubjectRef> {
    if tuples == [] then []
    else (if tuples[0].object_ == o && tuples[0].relation == relation then [tuples[0].subject] else [])
         + SubjectsNamed(tuples[1..], o, relation)
  }

  lemma {:induction false} SubjectsNamedMore(tuples: seq<Tuple>, t: Tuple, o: ObjectRef, relation: string)
    ensures SubjectsNamed(tuples + [t], o, relation)
            == SubjectsNamed(tuples, o, relation) + if t.object_ == o && t.relation == relation then [t.subject] else []
    decreases |tuples|
  {
    if tuples == [] {
      assert [t][1..] == [];
    } else {
      assert (tuples + [t])[1..] == tuples[1..] + [t];
      SubjectsNamedMore(tuples[1..], t, o, relation);
    }
  }

  lemma {:induction false} SubjectsOnNamed(tuples: seq<Tuple>, o: ObjectRef, relation: string)
    ensures SubjectsOn(tuples, o, relation) == SubjectsNamed(tuples, o, relation)
    decreases |tuples|
  {
    if tuples != [] {
      var n := |tuples| - 1;
      SubjectsOnNamed(tuples[..n], o, relation);
      SubjectsNamedMore(tuples[..n], tuples[n], o, relation);
      assert tuples == tuples[..n] + [tuples[n]];
    }
  }

  /** The object's own rows come first, in order, then the rows for every object of its kind, each row once. */
  lemma SubjectsInOrder(policy: Policy, tuples: seq<Tuple>, o: ObjectRef, relation: string)
    requires forall o, r :: At(policy.byObject, o, r) == SubjectsOn(tuples, o, r)
    ensures SubjectsFor(policy, o, relation)
            == SubjectsNamed(tuples, o, relation)
               + if o.id == "*" then [] else SubjectsNamed(tuples, ObjectRef(o.kind, "*"), relation)
  {
    SubjectsOnNamed(tuples, o, relation);
    SubjectsOnNamed(tuples, ObjectRef(o.kind, "*"), relation);
  }

  // ---------------------------------------------------------------------
  // Rewrites
  // ---------------------------------------------------------------------

  function RulesFor(rules: seq<Rewrite>, kind: string): seq<Rewrite> {
    if rules == [] then [] else
    var before, last := RulesFor(rules[..|rules| - 1], kind), rules[|rules| - 1];
    if last.kind.None? || last.kind.value == kind then before + [last] else before
  }

  /** `rewrites_for`. */
  function RewritesFor(policy: Policy, relation: string, kind: string): seq<Rewrite> {
    if relation in policy.rewrites then RulesFor(policy.rewrites[relation], kind) else []
  }

  /** The rules that derive one relation, in row order. */
  function RulesOf(rules: seq<Rewrite>, relation: string): seq<Rewrite> {
    if rules == [] then [] else
    var before, last := RulesOf(rules[..|rules| - 1], relation), rules[|rules| - 1];
    if last.relation == relation then before + [last] else before
  }

  /** `read_rewrites`. */
  method CompileRewrites(rules: seq<Rewrite>) returns (index: map<string, seq<Rewrite>>)
    ensures forall r :: (if r in index then index[r] else []) == RulesOf(rules, r)
  {
    index := map[];
    for i := 0 to |rules|
      invariant forall r :: (if r in index then index[r] else []) == RulesOf(rules[..i], r)
    {
      var key := rules[i].relation;
      assert rules[..i + 1][..i] == rules[..i];
      index := index[key := (if key in index then index[key] else []) + [rules[i]]];
    }
    assert rules[..|rules|] == rules;
  }

  /** The policy was compiled from these rows. */
  ghost predicate CompiledFrom(policy: Policy, tuples: seq<Tuple>, rules: seq<Rewrite>) {
    && (forall o, r :: At(policy.byObject, o, r) == SubjectsOn(tuples, o, r))
    && (forall r :: (if r in policy.rewrites then policy.rewrites[r] else []) == RulesOf(rules, r))
  }

  lemma {:induction false} RulesForMembers(rules: seq<Rewrite>, kind: string, rule: Rewrite)
    ensures rule in RulesFor(rules, kind) <==> rule in rules && (rule.kind.None? || rule.kind.value == kind)
    decreases |rules|
  {
    if rules != [] {
      RulesForMembers(rules[..|rules| - 1], kind, rule);
      assert rules == rules[..|rules| - 1] + [rules[|rules| - 1]];
    }
  }

  lemma {:induction false} RulesOfMembers(rules: seq<Rewrite>, relation: string, rule: Rewrite)
    ensures rule in RulesOf(rules, relation) <==> rule in rules && rule.relation == relation
    decreases |rules|
  {
    if rules != [] {
      RulesOfMembers(rules[..|rules| - 1], relation, rule);
      assert rules == rules[..|rules| - 1] + [rules[|rules| - 1]];
    }
  }

  lemma RewritesForMembers(policy: Policy, tuples: seq<Tuple>, rules: seq<Rewrite>, relation: string, kind: string,
                           rule: Rewrite)
    requires CompiledFrom(policy, tuples, rules)
    ensures rule in RewritesFor(policy, relation, kind)
            <==> rule in rules && rule.relation == relation && (rule.kind.None? || rule.kind.value == kind)
  {
    hide RulesFor, RulesOf, SubjectsOn;
    RulesOfMembers(rules, relation, rule);
    RulesForMembers(if relation in policy.rewrites then policy.rewrites[relation] else [], kind, rule);
    assert RulesFor([], kind) == [] by { RulesForNothing(kind); }
  }

  lemma RulesForNothing(kind: string)
    ensures RulesFor([], kind) == []
  {}

  /** The rules for one relation and kind, from the first row on. */
  function RulesNamed(rules: seq<Rewrite>, relation: string, kind: string): seq<Rewrite> {
    if rules == [] then []
    else (if rules[0].relation == relation && (rules[0].kind.None? || rules[0].kind == Some(kind)) then [rules[0]]
          else [])
         + RulesNamed(rules[1..], relation, kind)
  }

  lemma {:induction false} RulesNamedMore(rules: seq<Rewrite>, last: Rewrite, relation: string, kind: string)
    ensures RulesNamed(rules + [last], relation, kind)
            == RulesNamed(rules, relation, kind) + RulesNamed([last], relation, kind)
    decreases |rules|
  {
    if rules == [] {
      assert rules + [last] == [last];
    } else {
      assert (rules + [last])[1..] == rules[1..] + [last];
      RulesNamedMore(rules[1..], last, relation, kind);
    }
  }

  lemma {:induction false} RulesOfNamed(rules: seq<Rewrite>, relation: string, kind: string)
    ensures RulesFor(RulesOf(rules, relation), kind) == RulesNamed(rules, relation, kind)
    decreases |rules|
  {
    if rules != [] {
      var n := |rules| - 1;
      var before, last := RulesOf(rules[..n], relation), rules[n];
      RulesOfNamed(rules[..n], relation, kind);
      RulesNamedMore(rules[..n], last, relation, kind);
      assert rules == rules[..n] + [last];
      assert [last][1..] == [] && (before + [last])[..|before|] == before;
    }
  }

  /** The rules apply in row order. */
  lemma RewritesInOrder(policy: Policy, tuples: seq<Tuple>, rules: seq<Rewrite>, relation: string, kind: string)
    requires CompiledFrom(policy, tuples, rules)
    ensures RewritesFor(policy, relation, kind) == RulesNamed(rules, relation, kind)
  {
    hide RulesOf, SubjectsOn;
    RulesOfNamed(rules, relation, kind);
  }

  // ---------------------------------------------------------------------
  // Bindings
  // ---------------------------------------------------------------------

  type BindingIndex = map<(string, ObjectRef), Binding>

  datatype Compiled = Bound(bindings: BindingIndex) | UndefinedView(binding: Binding)

  /** The binding in force for a relation and object: the last row that names them. */
  function LastBinding(rows: seq<Binding>, relation: string, o: ObjectRef): Option<Binding> {
    if rows == [] then None
    else if rows[|rows| - 1].relation == relation && rows[|rows| - 1].object_ == o then Some(rows[|rows| - 1])
    else LastBinding(rows[..|rows| - 1], relation, o)
  }

  predicate ViewDefined(b: Binding, views: set<string>) { b.view.Some? ==> b.view.value in views }

  function BindingAt(index: BindingIndex, relation: string, o: ObjectRef): Option<Binding> {
    if (relation, o) in index then Some(index[(relation, o)]) else None
  }

  /**
   * `read_bindings`: refuses at the first row naming an undefined view; otherwise every binding in force names a
   * defined one.
   */
  method CompileBindings(rows: seq<Binding>, views: set<string>) returns (r: Compiled)
    ensures r.Bound? <==> forall b :: b in rows ==> ViewDefined(b, views)
    ensures r.Bound? ==> forall rel, o :: BindingAt(r.bindings, rel, o) == LastBinding(rows, rel, o)
    ensures r.Bound? ==> forall k :: k in r.bindings ==> ViewDefined(r.bindings[k], views)
    ensures r.UndefinedView? ==> r.binding in rows && !ViewDefined(r.binding, views)
  {
    var index: BindingIndex := map[];
    for i := 0 to |rows|
      invariant forall b :: b in rows[..i] ==> ViewDefined(b, views)
      invariant forall rel, o :: BindingAt(index, rel, o) == LastBinding(rows[..i], rel, o)
      invariant forall k :: k in index ==> ViewDefined(index[k], views)
    {
      var b := rows[i];
      if b.view.Some? && b.view.value !in views {
        assert b in rows && !ViewDefined(b, views);
        return UndefinedView(b);
      }
      assert rows[..i + 1][..i] == rows[..i];
      index := index[(b.relation, b.object_) := b];
    }
    assert rows[..|rows|] == rows;
    r := Bound(index);
  }

  /** `binding_for`: the object's own binding, falling back to its type wildcard. */
  function BindingFor(index: BindingIndex, relation: string, o: ObjectRef): Option<Binding> {
    if (relation, o) in index then Some(index[(relation, o)]) else BindingAt(index, relation, o.WildcardOfType())
  }
}
