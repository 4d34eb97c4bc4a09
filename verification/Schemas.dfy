/** Attribute metadata, as far as indexing, uniqueness and protection read it. */
module Schemas {
  import opened Options
  import opened Values
  import opened Datoms

  datatype Unique = Identity | UniqueValue

  datatype Attribute = Attribute(valueType: ValueType, unique: Option<Unique>, indexed: bool, noHistory: bool)

  /** `protection` maps an attribute to its `(t, class)` timeline, oldest entry first. */
  datatype Schema = Schema(attrs: map<EntityId, Attribute>, protection: map<EntityId, seq<(nat, Option<EntityId>)>>)

  function Timeline(schema: Schema, a: EntityId): seq<(nat, Option<EntityId>)> {
    if a in schema.protection then schema.protection[a] else []
  }

  predicate EverProtected(schema: Schema, a: EntityId) {
    exists i :: 0 <= i < |Timeline(schema, a)| && Timeline(schema, a)[i].1.Some?
  }

  predicate OmitsHistory(schema: Schema, a: EntityId) {
    a in schema.attrs && schema.attrs[a].noHistory
  }

  /** `avet_covered`. */
  predicate AvetCovered(schema: Schema, a: EntityId) {
    a in schema.attrs && (schema.attrs[a].indexed || schema.attrs[a].unique.Some?)
  }

  /** `covered`: every order holds every fact, but AVET only indexed attributes and VAET only references. */
  predicate Covered(schema: Schema, order: IndexOrder, f: Fact) {
    match order
    case Eavt => true
    case Aevt => true
    case Avet => AvetCovered(schema, f.a)
    case Vaet => f.v.Ref?
  }
}
