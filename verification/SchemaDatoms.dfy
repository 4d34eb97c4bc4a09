/** Deriving attribute metadata from the schema datoms of a transaction. */
module SchemaDatoms {
  import opened Options
  import opened Values
  import opened Datoms
  import opened Schemas
  import Sorting

  const IDENT: EntityId := 10
  const VALUE_TYPE: EntityId := 40
  const CARDINALITY: EntityId := 41
  const UNIQUE: EntityId := 42
  const IS_COMPONENT: EntityId := 43
  const INDEX: EntityId := 44
  const NO_HISTORY: EntityId := 45
  const TX_INSTANT: EntityId := 50
  const DOC: EntityId := 62
  const PROTECTION: EntityId := 80
  const RETIRED: EntityId := 81

  predicate IsSchemaAttribute(a: EntityId) {
    a in {IDENT, VALUE_TYPE, CARDINALITY, UNIQUE, IS_COMPONENT, INDEX, NO_HISTORY, DOC, PROTECTION, RETIRED}
  }

  /** Whether the transaction needs a schema derivation at all. */
  predicate TouchesNaming(datoms: seq<Datom>) {
    exists i :: 0 <= i < |datoms| && IsSchemaAttribute(datoms[i].a)
  }

  /** Whether the transaction counts as a schema change: vocabulary on an entity of the db partition. */
  predicate ChangesSchema(datoms: seq<Datom>) {
    exists i :: 0 <= i < |datoms| && IsSchemaAttribute(datoms[i].a) && PartitionOf(datoms[i].e) == DB_PARTITION
  }

  type Slot = (EntityId, EntityId)

  /** `final_values`: what each vocabulary slot holds after the transaction, `None` where it was cleared. */
  function FinalValues(datoms: seq<Datom>): map<Slot, Option<Value>> {
    if datoms == [] then map[] else
    var before, d := FinalValues(datoms[..|datoms| - 1]), datoms[|datoms| - 1];
    if !IsSchemaAttribute(d.a) then before else
    var slot := if (d.e, d.a) in before then before[(d.e, d.a)] else None;
    before[(d.e, d.a) := if d.added then Some(d.v) else if slot == Some(d.v) then None else slot]
  }

  function ValueTypeNamed(name: string): Option<ValueType> {
    if name == "string" then Some(StrType)
    else if name == "long" then Some(LongType)
    else if name == "double" then Some(DoubleType)
    else if name == "boolean" then Some(BoolType)
    else if name == "instant" then Some(InstantType)
    else if name == "uuid" then Some(UuidType)
    else if name == "keyword" then Some(KeywordType)
    else if name == "bytes" then Some(BytesType)
    else if name == "ref" then Some(RefType)
    else None
  }

  function UniqueNamed(name: string): Option<Unique> {
    if name == "identity" then Some(Identity) else if name == "value" then Some(UniqueValue) else None
  }

  /** The name of a keyword value, when the interner knows it. */
  function NameOf(names: map<nat, string>, v: Option<Value>): Option<string> {
    if v.Some? && v.value.Keyword? && v.value.kw in names then Some(names[v.value.kw]) else None
  }

  /** The attribute record one vocabulary slot leaves, and whether it is installed. */
  function RecordAfter(existing: Option<Attribute>, names: map<nat, string>, a: EntityId,
                       v: Option<Value>): Option<Attribute> {
    var record := if existing.Some? then existing.value else Attribute(StrType, None, false, false);
    var name := NameOf(names, v);
    var typed := a == VALUE_TYPE && name.Some? && ValueTypeNamed(name.value).Some?;
    var changed :=
      if typed then record.(valueType := ValueTypeNamed(name.value).value)
      else if a == UNIQUE then
        if v.None? then record.(unique := None)
        else if name.Some? && UniqueNamed(name.value).Some? then record.(unique := UniqueNamed(name.value))
        else record
      else if a == INDEX then record.(indexed := v == Some(Bool(true)))
      else if a == NO_HISTORY then record.(noHistory := v == Some(Bool(true)))
      else record;
    if existing.Some? || typed then Some(changed.(indexed := changed.indexed || changed.unique.Some?)) else None
  }

  /** A protection change appends to the timeline unless it restates the class in force. */
  function TimelineAfter(timeline: seq<(nat, Option<EntityId>)>, t: nat, v: Option<Value>)
    : seq<(nat, Option<EntityId>)>
  {
    var class_ := if v.Some? && v.value.Ref? then Some(v.value.entity) else None;
    var current := if timeline == [] then None else timeline[|timeline| - 1].1;
    if current != class_ then timeline + [(t, class_)] else timeline
  }

  /** One slot of `derive`. Naming slots carry no attribute metadata. */
  function DeriveSlot(schema: Schema, names: map<nat, string>, t: nat, slot: Slot, v: Option<Value>): Schema {
    var (e, a) := slot;
    if a == IDENT then schema else
    var record := RecordAfter(if e in schema.attrs then Some(schema.attrs[e]) else None, names, a, v);
    var attrs := if record.Some? then schema.attrs[e := record.value] else schema.attrs;
    var timeline := if a == PROTECTION then TimelineAfter(Timeline(schema, e), t, v) else Timeline(schema, e);
    Schema(attrs, if timeline == Timeline(schema, e) then schema.protection else schema.protection[e := timeline])
  }

  predicate SlotLess(x: Slot, y: Slot) { x.0 < y.0 || (x.0 == y.0 && x.1 < y.1) }

  lemma SlotOrder()
    ensures Sorting.TotalOrder(SlotLess)
  {}

  function DeriveSlots(schema: Schema, names: map<nat, string>, t: nat, final: map<Slot, Option<Value>>,
                       slots: seq<Slot>): Schema
    requires forall s :: s in slots ==> s in final
    decreases |slots|
  {
    if slots == [] then schema
    else DeriveSlots(DeriveSlot(schema, names, t, slots[0], final[slots[0]]), names, t, final, slots[1..])
  }

  /** `derive`: the vocabulary slots of a transaction, in entity then attribute order. */
  ghost function Derive(schema: Schema, names: map<nat, string>, t: nat, datoms: seq<Datom>): Schema {
    var final := FinalValues(datoms);
    SlotOrder();
    Sorting.OrderedMeaning(SlotLess, final.Keys);
    DeriveSlots(schema, names, t, final, Sorting.Ordered(SlotLess, final.Keys))
  }

  /** The schema a transaction leaves behind. */
  ghost function NextSchema(schema: Schema, names: map<nat, string>, t: nat, datoms: seq<Datom>): Schema {
    if TouchesNaming(datoms) then Derive(schema, names, t, datoms) else schema
  }

  /** Attribute metadata is only ever written on entities of the db partition, as the transactor enforces. */
  ghost predicate MetadataOnAttributes(datoms: seq<Datom>) {
    forall i :: 0 <= i < |datoms| && IsSchemaAttribute(datoms[i].a) && datoms[i].a != IDENT ==>
      PartitionOf(datoms[i].e) == DB_PARTITION
  }

  lemma {:induction false} FinalSlots(datoms: seq<Datom>, slot: Slot)
    requires slot in FinalValues(datoms)
    ensures exists i :: 0 <= i < |datoms| && IsSchemaAttribute(datoms[i].a) && (datoms[i].e, datoms[i].a) == slot
    decreases |datoms|
  {
    var n := |datoms| - 1;
    if slot in FinalValues(datoms[..n]) {
      FinalSlots(datoms[..n], slot);
      var i :| 0 <= i < n && IsSchemaAttribute(datoms[..n][i].a) && (datoms[..n][i].e, datoms[..n][i].a) == slot;
      assert datoms[i] == datoms[..n][i];
    } else {
      assert (datoms[n].e, datoms[n].a) == slot;
    }
  }

  lemma {:induction false} NamingSlotsKeepSchema(schema: Schema, names: map<nat, string>, t: nat,
                                                 final: map<Slot, Option<Value>>, slots: seq<Slot>)
    requires forall s :: s in slots ==> s in final && s.1 == IDENT
    ensures DeriveSlots(schema, names, t, final, slots) == schema
    decreases |slots|
  {
    if slots != [] { NamingSlotsKeepSchema(schema, names, t, final, slots[1..]); }
  }

  /** A transaction that reports no schema change leaves the schema alone, given where metadata is written. */
  lemma NoSchemaChange(schema: Schema, names: map<nat, string>, t: nat, datoms: seq<Datom>)
    requires !ChangesSchema(datoms) && MetadataOnAttributes(datoms)
    ensures NextSchema(schema, names, t, datoms) == schema
  {
    if TouchesNaming(datoms) {
      var final := FinalValues(datoms);
      SlotOrder();
      var slots := Sorting.Ordered(SlotLess, final.Keys);
      Sorting.OrderedMeaning(SlotLess, final.Keys);
      forall s | s in slots ensures s in final && s.1 == IDENT { FinalSlots(datoms, s); }
      NamingSlotsKeepSchema(schema, names, t, final, slots);
    }
  }

  /** A type and a uniqueness written on one entity. */
  function UniqueLong(e: EntityId, tx: EntityId): seq<Datom> {
    [Datom(e, VALUE_TYPE, Keyword(0), tx, true), Datom(e, UNIQUE, Keyword(1), tx, true)]
  }

  const LONG_IDENTITY: map<nat, string> := map[0 := "long", 1 := "identity"]

  lemma UniqueLongFinal(e: EntityId, tx: EntityId)
    ensures FinalValues(UniqueLong(e, tx)) == map[(e, VALUE_TYPE) := Some(Keyword(0)), (e, UNIQUE) := Some(Keyword(1))]
  {
    var d0 := UniqueLong(e, tx)[0];
    assert UniqueLong(e, tx)[..1] == [d0];
    assert FinalValues([d0]) == map[(e, VALUE_TYPE) := Some(d0.v)];
  }

  /**
   * Without that discipline coverage can change unreported: metadata on a user entity installs an indexed attribute.
   */
  lemma UnreportedCoverage(schema: Schema, t: nat, e: EntityId, tx: EntityId)
    requires PartitionOf(e) == USER_PARTITION && e !in schema.attrs
    ensures !ChangesSchema(UniqueLong(e, tx)) && !AvetCovered(schema, e)
    ensures AvetCovered(NextSchema(schema, LONG_IDENTITY, t, UniqueLong(e, tx)), e)
  {
    hide FinalValues;
    var names, datoms := LONG_IDENTITY, UniqueLong(e, tx);
    var final := FinalValues(datoms);
    UniqueLongFinal(e, tx);
    SlotOrder();
    var slots := [(e, VALUE_TYPE), (e, UNIQUE)];
    Sorting.OrderedIs(SlotLess, final.Keys, slots);
    var first := DeriveSlot(schema, names, t, slots[0], final[slots[0]]);
    var second := DeriveSlot(first, names, t, slots[1], final[slots[1]]);
    assert slots[1..] == [slots[1]];
    assert DeriveSlots(first, names, t, final, slots[1..]) == second;
    assert Derive(schema, names, t, datoms) == second;
    assert datoms[0].a == VALUE_TYPE;
  }

  // ---------------------------------------------------------------------
  // Does the order of a transaction's datoms matter?
  // ---------------------------------------------------------------------

  predicate Fills(d: Datom, slot: Slot) { IsSchemaAttribute(d.a) && (d.e, d.a) == slot }

  /** Two datoms of one slot pull apart: two values asserted, or one asserted and retracted. */
  predicate Conflict(d: Datom, c: Datom) {
    && IsSchemaAttribute(d.a) && (c.e, c.a) == (d.e, d.a) && d.added
    && (if c.added then c.v != d.v else c.v == d.v)
  }

  ghost predicate Settled(datoms: seq<Datom>) { forall d, c :: d in datoms && c in datoms ==> !Conflict(d, c) }

  /** In a settled transaction a slot holds what is asserted on it, wherever that stands. */
  lemma {:induction false} SettledValue(datoms: seq<Datom>, slot: Slot)
    requires Settled(datoms)
    ensures slot in FinalValues(datoms) <==> exists d :: d in datoms && Fills(d, slot)
    ensures forall d :: d in datoms && Fills(d, slot) && d.added ==> FinalValues(datoms)[slot] == Some(d.v)
    ensures slot in FinalValues(datoms) && FinalValues(datoms)[slot].Some? ==>
              exists d :: d in datoms && Fills(d, slot) && d.added && FinalValues(datoms)[slot] == Some(d.v)
    decreases |datoms|
  {
    if datoms != [] {
      var front, last := datoms[..|datoms| - 1], datoms[|datoms| - 1];
      assert datoms == front + [last];
      SettledValue(front, slot);
      assert last in datoms;
    }
  }

  lemma PermutationsAgree(a: seq<Datom>, b: seq<Datom>)
    requires Settled(a) && multiset(a) == multiset(b)
    ensures FinalValues(a) == FinalValues(b)
  {
    hide FinalValues, IsSchemaAttribute, Conflict;
    forall d ensures d in a <==> d in b { assert d in multiset(a) <==> d in multiset(b); }
    forall slot: Slot
      ensures slot in FinalValues(a) <==> slot in FinalValues(b)
      ensures slot in FinalValues(a) ==> FinalValues(a)[slot] == FinalValues(b)[slot]
    {
      SettledValue(a, slot); SettledValue(b, slot);
    }
  }

  /** Taking one occurrence out. */
  lemma {:induction false} Without(a: seq<Datom>, d: Datom) returns (rest: seq<Datom>)
    requires d in a
    ensures multiset(a) == multiset(rest) + multiset{d} && forall x :: x in a && x != d ==> x in rest
    decreases |a|
  {
    assert a == [a[0]] + a[1..];
    if a[0] == d {
      rest := a[1..];
    } else {
      var tail := Without(a[1..], d);
      rest := [a[0]] + tail;
    }
  }

  /** The last of two conflicting datoms wins. */
  lemma LastConflictWins(rest: seq<Datom>, d: Datom, c: Datom)
    requires Conflict(d, c)
    ensures FinalValues(rest + [c, d]) != FinalValues(rest + [d, c])
  {
    var slot := (d.e, d.a);
    var x, y := rest + [c, d], rest + [d, c];
    assert x[..|x| - 1] == rest + [c] && y[..|y| - 1] == rest + [d];
    assert (rest + [d])[..|rest|] == rest;
    assert FinalValues(x)[slot] == Some(d.v);
    assert FinalValues(rest + [d])[slot] == Some(d.v);
    assert FinalValues(y)[slot] == if c.added then Some(c.v) else None;
  }

  /** Conflicting datoms can be put last in either order. */
  lemma ConflictShows(a: seq<Datom>, d: Datom, c: Datom) returns (x: seq<Datom>, y: seq<Datom>)
    requires d in a && c in a && Conflict(d, c)
    ensures multiset(x) == multiset(a) && multiset(y) == multiset(a) && FinalValues(x) != FinalValues(y)
  {
    hide FinalValues, Conflict;
    ConflictingDiffer(d, c);
    var less := Without(a, d);
    var rest := Without(less, c);
    x, y := rest + [c, d], rest + [d, c];
    TwoMore(rest, c, d); TwoMore(rest, d, c);
    LastConflictWins(rest, d, c);
  }

  lemma ConflictingDiffer(d: Datom, c: Datom)
    requires Conflict(d, c)
    ensures c != d
  {}

  lemma TwoMore(rest: seq<Datom>, x: Datom, y: Datom)
    ensures multiset(rest + [x, y]) == multiset(rest) + multiset{x} + multiset{y}
  {}

  /** The order of the datoms never matters exactly when no slot is asserted twice apart or asserted and retracted. */
  lemma OrderIsIrrelevant(a: seq<Datom>)
    ensures (forall b :: multiset(b) == multiset(a) ==> FinalValues(b) == FinalValues(a)) <==> Settled(a)
  {
    hide FinalValues, Conflict;
    if Settled(a) {
      forall b | multiset(b) == multiset(a) ensures FinalValues(b) == FinalValues(a) { PermutationsAgree(a, b); }
    } else {
      var d, c :| d in a && c in a && Conflict(d, c);
      var x, y := ConflictShows(a, d, c);
    }
  }
}
