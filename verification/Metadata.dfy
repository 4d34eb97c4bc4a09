/**
 * What a transaction's schema datoms say of one attribute, field by field.
 *
 * The derivation folds vocabulary slots in order; here its result is read off the values the slots are left with.
 */
module Metadata {
  import opened Options
  import opened Bytes
  import opened Values
  import opened Datoms
  import opened Schemas
  import opened SchemaDatoms
  import Sorting

  // ---------------------------------------------------------------------
  // What a slot is left with
  // ---------------------------------------------------------------------

  /** The assertion a slot is left with: none later on the slot, and its value not retracted later. */
  ghost predicate Stands(datoms: seq<Datom>, slot: Slot, k: nat) {
    && k < |datoms| && Fills(datoms[k], slot) && datoms[k].added
    && forall j :: k < j < |datoms| && Fills(datoms[j], slot) ==> !datoms[j].added && datoms[j].v != datoms[k].v
  }

  /** A slot is left with the value of the assertion that stands, and cleared when none does. */
  lemma {:induction false} FinalMeaning(datoms: seq<Datom>, slot: Slot)
    ensures slot in FinalValues(datoms) <==> exists d :: d in datoms && Fills(d, slot)
    ensures forall k: nat :: Stands(datoms, slot, k) ==>
      slot in FinalValues(datoms) && FinalValues(datoms)[slot] == Some(datoms[k].v)
    ensures slot in FinalValues(datoms) && FinalValues(datoms)[slot].Some? ==>
      exists k: nat :: Stands(datoms, slot, k)
    decreases |datoms|
  {
    if datoms != [] {
      var n := |datoms| - 1;
      var front, last := datoms[..n], datoms[n];
      assert datoms == front + [last] && last in datoms;
      FinalMeaning(front, slot);
      if Fills(last, slot) && last.added {
        assert Stands(datoms, slot, n);
      }
      forall k: nat | Stands(datoms, slot, k) && k < n ensures Stands(front, slot, k) {}
      if !(Fills(last, slot) && last.added) && slot in FinalValues(datoms) && FinalValues(datoms)[slot].Some? {
        var k: nat :| Stands(front, slot, k);
        assert Stands(datoms, slot, k);
      }
    }
  }

  // ---------------------------------------------------------------------
  // One attribute
  // ---------------------------------------------------------------------

  function AttributeAt(schema: Schema, e: EntityId): Option<Attribute> {
    if e in schema.attrs then Some(schema.attrs[e]) else None
  }

  function TypeLeft(names: map<nat, string>, v: Option<Value>): Option<ValueType> {
    if v.Some? && v.value.Keyword? && v.value.kw in names then ValueTypeNamed(names[v.value.kw]) else None
  }

  function UniqueLeft(names: map<nat, string>, v: Option<Value>): Option<Unique> {
    if v.Some? && v.value.Keyword? && v.value.kw in names then UniqueNamed(names[v.value.kw]) else None
  }

  /** The values one entity's vocabulary slots are left with. */
  type Left = map<EntityId, Option<Value>>

  /** Slots before `db/unique` that rewrite the record, and so index what was unique before. */
  predicate Rewritten(left: Left) { VALUE_TYPE in left || CARDINALITY in left }

  /**
   * The record an attribute is left with. It exists when it did or when the type slot names a known type; each field
   * is what its slot says, or stays; and it is indexed when told so, when unique, and when it was and is not told.
   */
  ghost predicate Described(existing: Option<Attribute>, names: map<nat, string>, left: Left, r: Option<Attribute>) {
    var base := if existing.Some? then existing.value else Attribute(StrType, None, false, false);
    var typed := VALUE_TYPE in left && TypeLeft(names, left[VALUE_TYPE]).Some?;
    && (r.Some? <==> existing.Some? || typed)
    && (r.Some? ==>
          && r.value.valueType == (if typed then TypeLeft(names, left[VALUE_TYPE]).value else base.valueType)
          && r.value.unique == (if UNIQUE !in left then base.unique
                                else if left[UNIQUE].None? then None
                                else if UniqueLeft(names, left[UNIQUE]).Some? then UniqueLeft(names, left[UNIQUE])
                                else base.unique)
          && r.value.noHistory
             == (if NO_HISTORY in left then left[NO_HISTORY] == Some(Bool(true)) else base.noHistory)
          && r.value.indexed
             == (|| (if INDEX in left then left[INDEX] == Some(Bool(true))
                     else base.indexed || (Rewritten(left) && base.unique.Some?))
                 || ((left.Keys - {IDENT}) != {} && r.value.unique.Some?)))
  }

  /** The timeline a protection slot leaves: one more entry exactly when the class differs from the last one. */
  ghost predicate Protects(timeline: seq<(nat, Option<EntityId>)>, t: nat, left: Left,
                           r: seq<(nat, Option<EntityId>)>) {
    if PROTECTION !in left then r == timeline else
    var v := left[PROTECTION];
    var class_ := if v.Some? && v.value.Ref? then Some(v.value.entity) else None;
    var last := if timeline == [] then None else timeline[|timeline| - 1].1;
    r == if last == class_ then timeline else timeline + [(t, class_)]
  }

  ghost predicate Below(left: Left, a: EntityId) { forall b :: b in left ==> b < a }

  /** One more slot of the entity, past those already folded. */
  lemma RecordStep(existing: Option<Attribute>, names: map<nat, string>, left: Left, r: Option<Attribute>, a: EntityId,
                   v: Option<Value>)
    requires Described(existing, names, left, r) && Below(left, a) && IsSchemaAttribute(a) && a != IDENT
    requires forall b :: b in left ==> IsSchemaAttribute(b)
    ensures Described(existing, names, left[a := v], RecordAfter(r, names, a, v))
  {
    hide ValueTypeNamed, UniqueNamed, IsSchemaAttribute, Below;
    Lower(left, a);
    assert a in left[a := v].Keys - {IDENT};
  }

  /** The vocabulary attributes below one of them. */
  lemma Lower(left: Left, a: EntityId)
    requires Below(left, a) && IsSchemaAttribute(a) && forall b :: b in left ==> IsSchemaAttribute(b)
    ensures a !in left
    ensures a == VALUE_TYPE ==> left.Keys - {IDENT} == {}
    ensures a == UNIQUE && left.Keys - {IDENT} != {} ==> Rewritten(left)
    ensures a in {VALUE_TYPE, CARDINALITY, UNIQUE} ==> UNIQUE !in left && INDEX !in left && NO_HISTORY !in left
    ensures left.Keys - {IDENT} == {} ==>
      VALUE_TYPE !in left && CARDINALITY !in left && UNIQUE !in left && INDEX !in left && NO_HISTORY !in left
  {
    assert forall b :: b in left.Keys - {IDENT} <==> b in left && b != IDENT;
  }

  // ---------------------------------------------------------------------
  // The whole derivation
  // ---------------------------------------------------------------------

  /** The schema so far, at one entity, is what the slots folded so far say. */
  ghost predicate Folded(schema: Schema, names: map<nat, string>, t: nat, e: EntityId, left: Left, r: Schema) {
    && Described(AttributeAt(schema, e), names, left, AttributeAt(r, e))
    && Protects(Timeline(schema, e), t, left, Timeline(r, e))
  }

  lemma SlotStep(schema: Schema, names: map<nat, string>, t: nat, e: EntityId, left: Left, r: Schema, slot: Slot,
                 v: Option<Value>)
    requires Folded(schema, names, t, e, left, r) && IsSchemaAttribute(slot.1)
    requires forall b :: b in left ==> IsSchemaAttribute(b)
    requires slot.0 == e ==> Below(left, slot.1)
    ensures Folded(schema, names, t, e, if slot.0 == e then left[slot.1 := v] else left,
                   DeriveSlot(r, names, t, slot, v))
  {
    hide Described, Protects, RecordAfter, IsSchemaAttribute, TimelineAfter, Below;
    SlotAt(r, names, t, slot, v, e);
    if slot.0 == e {
      if slot.1 == IDENT {
        NamingSlot(AttributeAt(schema, e), names, left, AttributeAt(r, e), v);
      } else {
        RecordStep(AttributeAt(schema, e), names, left, AttributeAt(r, e), slot.1, v);
      }
      TimelineStep(Timeline(schema, e), t, left, Timeline(r, e), slot.1, v);
    }
  }

  /** What one slot does to the record and the timeline of each entity. */
  lemma SlotAt(r: Schema, names: map<nat, string>, t: nat, slot: Slot, v: Option<Value>, e: EntityId)
    ensures AttributeAt(DeriveSlot(r, names, t, slot, v), e)
            == if slot.0 == e && slot.1 != IDENT then RecordAfter(AttributeAt(r, e), names, slot.1, v)
               else AttributeAt(r, e)
    ensures Timeline(DeriveSlot(r, names, t, slot, v), e)
            == if slot.0 == e && slot.1 == PROTECTION then TimelineAfter(Timeline(r, e), t, v) else Timeline(r, e)
  {
    hide RecordAfter, TimelineAfter;
    RecordKept(AttributeAt(r, slot.0), names, slot.1, v);
  }

  lemma TimelineStep(timeline: seq<(nat, Option<EntityId>)>, t: nat, left: Left, r: seq<(nat, Option<EntityId>)>,
                     a: EntityId, v: Option<Value>)
    requires Protects(timeline, t, left, r) && Below(left, a)
    ensures Protects(timeline, t, left[a := v], if a == PROTECTION then TimelineAfter(r, t, v) else r)
  {}

  lemma NamingSlot(existing: Option<Attribute>, names: map<nat, string>, left: Left, r: Option<Attribute>,
                   v: Option<Value>)
    requires Described(existing, names, left, r)
    ensures Described(existing, names, left[IDENT := v], r)
  {
    assert left[IDENT := v].Keys - {IDENT} == left.Keys - {IDENT};
  }

  lemma RecordKept(r: Option<Attribute>, names: map<nat, string>, a: EntityId, v: Option<Value>)
    ensures r.Some? ==> RecordAfter(r, names, a, v).Some?
  {}

  /** The values left for one entity, among slots. */
  function LeftFor(final: map<Slot, Option<Value>>, e: EntityId): Left {
    map s | s in final && s.0 == e :: s.1 := final[s]
  }

  lemma {:induction false} SlotsFold(schema: Schema, names: map<nat, string>, t: nat, final: map<Slot, Option<Value>>,
                                     e: EntityId, done: map<Slot, Option<Value>>, r: Schema, slots: seq<Slot>)
    requires Sorting.Sorted(SlotLess, slots)
    requires forall s :: s in slots ==> s in final && s !in done
    requires forall s :: s in final <==> s in done || s in slots
    requires forall s :: s in done ==> s in final && done[s] == final[s]
    requires forall s :: s in final ==> IsSchemaAttribute(s.1)
    requires forall s, s' :: s in done && s' in slots ==> SlotLess(s, s')
    requires Folded(schema, names, t, e, LeftFor(done, e), r)
    ensures Folded(schema, names, t, e, LeftFor(final, e), DeriveSlots(r, names, t, final, slots))
    decreases |slots|
  {
    hide Folded, DeriveSlot, IsSchemaAttribute, LeftFor;
    if slots == [] {
      assert done == final;
    } else {
      var s := slots[0];
      assert s in slots && forall k :: 0 <= k < |slots[1..]| ==> SlotLess(s, slots[1..][k]);
      var done' := done[s := final[s]];
      LeftMembers(done, e);
      assert slots == [s] + slots[1..];
      SlotStep(schema, names, t, e, LeftFor(done, e), r, s, final[s]);
      LeftGrows(done, e, s, final[s]);
      SlotsFold(schema, names, t, final, e, done', DeriveSlot(r, names, t, s, final[s]), slots[1..]);
    }
  }

  lemma LeftMembers(final: map<Slot, Option<Value>>, e: EntityId)
    ensures forall a :: a in LeftFor(final, e) <==> (e, a) in final
  {
    forall a ensures a in LeftFor(final, e) <==> (e, a) in final {
      if (e, a) in final { assert (e, a).0 == e; }
    }
  }

  lemma LeftGrows(done: map<Slot, Option<Value>>, e: EntityId, s: Slot, v: Option<Value>)
    ensures LeftFor(done[s := v], e) == if s.0 == e then LeftFor(done, e)[s.1 := v] else LeftFor(done, e)
  {
    LeftMembers(done, e);
    LeftMembers(done[s := v], e);
  }

  /**
   * The attribute and the protection timeline a transaction leaves, read off what its vocabulary slots are left with.
   */
  lemma DerivedAttribute(schema: Schema, names: map<nat, string>, t: nat, datoms: seq<Datom>, e: EntityId)
    ensures var r, left := NextSchema(schema, names, t, datoms), LeftFor(FinalValues(datoms), e);
            && Described(AttributeAt(schema, e), names, left, AttributeAt(r, e))
            && Protects(Timeline(schema, e), t, left, Timeline(r, e))
  {
    hide DeriveSlots, Described, FinalValues, IsSchemaAttribute, Sorting.Ordered;
    var final := FinalValues(datoms);
    assert Described(AttributeAt(schema, e), names, map[], AttributeAt(schema, e)) by { Untouched(schema, names, e); }
    assert LeftFor(map[], e) == map[];
    forall s | s in final ensures IsSchemaAttribute(s.1) && TouchesNaming(datoms) { FinalSlots(datoms, s); }
    if TouchesNaming(datoms) {
      SlotOrder();
      Sorting.OrderedMeaning(SlotLess, final.Keys);
      SlotsFold(schema, names, t, final, e, map[], schema, Sorting.Ordered(SlotLess, final.Keys));
    } else {
      assert final == map[];
    }
  }

  /** A schema whose unique attributes are all indexed stays one. */
  lemma UniqueStaysIndexed(schema: Schema, names: map<nat, string>, t: nat, datoms: seq<Datom>)
    requires forall e :: e in schema.attrs && schema.attrs[e].unique.Some? ==> schema.attrs[e].indexed
    ensures var r := NextSchema(schema, names, t, datoms);
            forall e :: e in r.attrs && r.attrs[e].unique.Some? ==> r.attrs[e].indexed
  {
    hide NextSchema, FinalValues, Protects;
    var r := NextSchema(schema, names, t, datoms);
    forall e | e in r.attrs && r.attrs[e].unique.Some? ensures r.attrs[e].indexed {
      DerivedAttribute(schema, names, t, datoms, e);
      var left := LeftFor(FinalValues(datoms), e);
      assert UNIQUE in left ==> UNIQUE in left.Keys - {IDENT};
      assert INDEX in left ==> INDEX in left.Keys - {IDENT};
    }
  }

  lemma Untouched(schema: Schema, names: map<nat, string>, e: EntityId)
    ensures Described(AttributeAt(schema, e), names, map[], AttributeAt(schema, e))
  {
    var none: Left := map[];
    assert none.Keys - {IDENT} == {};
  }

  // ---------------------------------------------------------------------
  // Describing an attribute
  // ---------------------------------------------------------------------

  function TypeName(ty: ValueType): string {
    match ty
    case StrType => "string"
    case LongType => "long"
    case DoubleType => "double"
    case BoolType => "boolean"
    case InstantType => "instant"
    case UuidType => "uuid"
    case KeywordType => "keyword"
    case BytesType => "bytes"
    case RefType => "ref"
  }

  function UniqueName(u: Unique): string { if u.Identity? then "identity" else "value" }

  /** The nine type names and two modes are read, each as what it names, and no other name is. */
  lemma NamesAreExact(name: string, ty: ValueType, u: Unique)
    ensures ValueTypeNamed(name) == Some(ty) <==> name == TypeName(ty)
    ensures UniqueNamed(name) == Some(u) <==> name == UniqueName(u)
  {
    assert "string"[1] == 't' && "long"[1] == 'o' && "boolean"[1] == 'o' && "instant"[1] == 'n';
  }

  /** The datoms that describe an attribute, its names interned as `kind` and `mode`. */
  function Describe(e: EntityId, a: Attribute, kind: u64, mode: u64, tx: EntityId): seq<Datom> {
    [Datom(e, VALUE_TYPE, Keyword(kind), tx, true), Datom(e, INDEX, Bool(a.indexed), tx, true),
     Datom(e, NO_HISTORY, Bool(a.noHistory), tx, true)]
    + if a.unique.Some? then [Datom(e, UNIQUE, Keyword(mode), tx, true)] else []
  }

  lemma DescribedLeft(e: EntityId, a: Attribute, kind: u64, mode: u64, tx: EntityId)
    ensures var left := LeftFor(FinalValues(Describe(e, a, kind, mode, tx)), e);
            && VALUE_TYPE in left && left[VALUE_TYPE] == Some(Keyword(kind))
            && INDEX in left && left[INDEX] == Some(Bool(a.indexed))
            && NO_HISTORY in left && left[NO_HISTORY] == Some(Bool(a.noHistory))
            && (UNIQUE in left <==> a.unique.Some?) && (UNIQUE in left ==> left[UNIQUE] == Some(Keyword(mode)))
  {
    hide FinalValues, Fills;
    var datoms := Describe(e, a, kind, mode, tx);
    DescribedAt(e, a, kind, mode, tx, 0, VALUE_TYPE);
    DescribedAt(e, a, kind, mode, tx, 1, INDEX);
    DescribedAt(e, a, kind, mode, tx, 2, NO_HISTORY);
    if a.unique.Some? {
      DescribedAt(e, a, kind, mode, tx, 3, UNIQUE);
    } else {
      FinalMeaning(datoms, (e, UNIQUE));
      assert forall d :: d in datoms ==> !Fills(d, (e, UNIQUE)) by { NotFilled(datoms, e); }
      LeftMembers(FinalValues(datoms), e);
    }
  }

  lemma NotFilled(datoms: seq<Datom>, e: EntityId)
    requires forall d :: d in datoms ==> d.a != UNIQUE
    ensures forall d :: d in datoms ==> !Fills(d, (e, UNIQUE))
  {}

  lemma DescribedAt(e: EntityId, a: Attribute, kind: u64, mode: u64, tx: EntityId, k: nat, attribute: EntityId)
    requires var datoms := Describe(e, a, kind, mode, tx); k < |datoms| && datoms[k].a == attribute
    ensures var datoms := Describe(e, a, kind, mode, tx);
            var left := LeftFor(FinalValues(datoms), e);
            attribute in left && left[attribute] == Some(datoms[k].v)
  {
    hide FinalValues;
    var datoms := Describe(e, a, kind, mode, tx);
    assert Stands(datoms, (e, attribute), k);
    FinalMeaning(datoms, (e, attribute));
    LeftMembers(FinalValues(datoms), e);
  }

  lemma NamesRead(names: map<nat, string>, ty: ValueType, u: Unique, kind: u64)
    requires kind in names
    ensures names[kind] == TypeName(ty) ==> TypeLeft(names, Some(Keyword(kind))) == Some(ty)
    ensures names[kind] == UniqueName(u) ==> UniqueLeft(names, Some(Keyword(kind))) == Some(u)
  {}

  /** An attribute described on a new entity is the one installed, up to uniqueness implying an index. */
  lemma DescribedIsDerived(schema: Schema, names: map<nat, string>, t: nat, e: EntityId, a: Attribute, kind: u64,
                           mode: u64, tx: EntityId)
    requires e !in schema.attrs
    requires kind in names && names[kind] == TypeName(a.valueType)
    requires a.unique.Some? ==> mode in names && names[mode] == UniqueName(a.unique.value)
    ensures AttributeAt(NextSchema(schema, names, t, Describe(e, a, kind, mode, tx)), e)
            == Some(a.(indexed := a.indexed || a.unique.Some?))
  {
    hide NextSchema, FinalValues, Protects, LeftFor, Describe, TypeName, UniqueName, TypeLeft, UniqueLeft;
    DerivedAttribute(schema, names, t, Describe(e, a, kind, mode, tx), e);
    DescribedLeft(e, a, kind, mode, tx);
    var left := LeftFor(FinalValues(Describe(e, a, kind, mode, tx)), e);
    assert VALUE_TYPE in left.Keys - {IDENT};
    NamesRead(names, a.valueType, Identity, kind);
    if a.unique.Some? { NamesRead(names, a.valueType, a.unique.value, mode); }
  }

  /** Taking back everything said of an attribute clears its flags and its uniqueness, and keeps its type. */
  lemma RetractedIsDefault(schema: Schema, names: map<nat, string>, t: nat, e: EntityId, datoms: seq<Datom>)
    requires e in schema.attrs
    requires forall d :: d in datoms && d.e == e ==> !d.added
    requires forall a :: a in {UNIQUE, INDEX, NO_HISTORY} ==> exists d :: d in datoms && Fills(d, (e, a))
    ensures var r := AttributeAt(NextSchema(schema, names, t, datoms), e);
            r == Some(Attribute(schema.attrs[e].valueType, None, false, false))
  {
    hide NextSchema, FinalValues, Protects;
    DerivedAttribute(schema, names, t, datoms, e);
    var left := LeftFor(FinalValues(datoms), e);
    forall a ensures a in left ==> left[a].None? {
      FinalMeaning(datoms, (e, a));
      assert forall k: nat :: k < |datoms| ==> datoms[k] in datoms;
    }
    FinalMeaning(datoms, (e, UNIQUE)); FinalMeaning(datoms, (e, INDEX)); FinalMeaning(datoms, (e, NO_HISTORY));
    assert UNIQUE in left && INDEX in left && NO_HISTORY in left;
  }
}
