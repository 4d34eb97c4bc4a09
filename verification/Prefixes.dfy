/** What a prefix scan answers in each order, for any components bound. */
module Prefixes {
  import opened Options
  import opened Bytes
  import opened Values
  import opened Encoding
  import opened Datoms
  import opened Liveness
  import opened Schemas
  import opened Indexes
  import opened Scans

  /** The fact has the leading components that are bound, up to the first that is not. */
  predicate Agrees(order: IndexOrder, bound: Bound, f: Fact) {
    var e := bound.e.None? || bound.e.value == f.e;
    var a := bound.a.None? || bound.a.value == f.a;
    var v := bound.v.None? || bound.v.value == f.v;
    match order
    case Eavt => e && (bound.e.Some? ==> a && (bound.a.Some? ==> v))
    case Aevt => a && (bound.a.Some? ==> e && (bound.e.Some? ==> v))
    case Avet => a && (bound.a.Some? ==> v && (bound.v.Some? ==> e))
    case Vaet => v && (bound.v.Some? ==> a && (bound.a.Some? ==> e))
  }

  // ---------------------------------------------------------------------
  // Keys
  // ---------------------------------------------------------------------

  predicate SamePart(part: Part, bound: Bound, f: Fact) {
    match part
    case EntityPart => bound.e == Some(f.e)
    case AttributePart => bound.a == Some(f.a)
    case ValuePart => bound.v == Some(f.v)
  }

  predicate AgreesParts(parts: seq<Part>, bound: Bound, f: Fact) {
    parts == [] || PartKey(parts[0], bound).None? || (SamePart(parts[0], bound, f) && AgreesParts(parts[1..], bound, f))
  }

  lemma PartPrefix(part: Part, bound: Bound, f: Fact, more: seq<byte>, rest: seq<byte>)
    requires PartKey(part, bound).Some? && PartKey(part, Whole(f)).Some?
    ensures PartKey(part, bound).value + more <= PartKey(part, Whole(f)).value + rest
            <==> SamePart(part, bound, f) && more <= rest
  {
    hide Encode, U64Key;
    var x, y := PartKey(part, bound).value, PartKey(part, Whole(f)).value;
    PrefixAfter(x, more, rest);
    if x + more <= y + rest {
      assert x == (x + more)[..|x|] && x <= y + rest;
      match part
      case EntityPart => IdPrefix(bound.e.value, f.e, rest);
      case AttributePart => IdPrefix(bound.a.value, f.a, rest);
      case ValuePart => ValuePrefix(bound.v.value, f.v, rest);
    }
  }

  lemma {:induction false} PartsPrefix(parts: seq<Part>, bound: Bound, f: Fact, tail: seq<byte>)
    ensures PrefixKey(parts, bound) <= PrefixKey(parts, Whole(f)) + tail <==> AgreesParts(parts, bound, f)
    decreases |parts|
  {
    hide PartKey, SamePart;
    if parts != [] && PartKey(parts[0], bound).Some? {
      assert PartKey(parts[0], Whole(f)).Some? by { WholeIsBound(parts[0], f); }
      var rest := PrefixKey(parts[1..], Whole(f)) + tail;
      assert PrefixKey(parts, Whole(f)) + tail == PartKey(parts[0], Whole(f)).value + rest;
      PartPrefix(parts[0], bound, f, PrefixKey(parts[1..], bound), rest);
      PartsPrefix(parts[1..], bound, f, tail);
    }
  }

  lemma WholeIsBound(part: Part, f: Fact)
    ensures PartKey(part, Whole(f)).Some?
  {}

  lemma AgreesInOrder(order: IndexOrder, bound: Bound, f: Fact)
    ensures AgreesParts(PartsOf(order), bound, f) <==> Agrees(order, bound, f)
  {
    var parts := PartsOf(order);
    assert parts[1..] == [parts[1], parts[2]] && parts[1..][1..] == [parts[2]] && parts[1..][1..][1..] == [];
    assert AgreesParts([parts[2]], bound, f) <==> PartKey(parts[2], bound).None? || SamePart(parts[2], bound, f);
    assert AgreesParts([parts[1], parts[2]], bound, f)
      <==> PartKey(parts[1], bound).None? || (SamePart(parts[1], bound, f) && AgreesParts([parts[2]], bound, f));
  }

  /** A key carries a prefix exactly when its fact agrees with what the prefix binds. */
  lemma KeyAgrees(order: IndexOrder, bound: Bound, f: Fact, k: seq<byte>)
    requires Components(order, f) <= k
    ensures PrefixKey(PartsOf(order), bound) <= k <==> Agrees(order, bound, f)
  {
    hide Components, PrefixKey, Agrees, PartsOf;
    WholePrefixIsComponents(order, f);
    var tail := k[|Components(order, f)|..];
    assert k == Components(order, f) + tail;
    PartsPrefix(PartsOf(order), bound, f, tail);
    AgreesInOrder(order, bound, f);
  }

  // ---------------------------------------------------------------------
  // Scans
  // ---------------------------------------------------------------------

  /** `datoms_prefix` of an order, with the components bound. */
  ghost function Prefixed(index: Index, order: IndexOrder, bound: Bound): seq<Datom> {
    PrefixScanIsExact(index, PrefixKey(PartsOf(order), bound));
    DatomsOf(index, PrefixScan(index, PrefixKey(PartsOf(order), bound)))
  }

  ghost predicate InFactOrder(order: IndexOrder, rows: seq<Datom>) {
    forall i, j :: 0 <= i < j < |rows| ==> FactLess(order, rows[i].Eav(), rows[j].Eav())
  }

  /** The scan of a keyed index yields exactly the entries that agree. */
  lemma PrefixedMembers(index: Index, order: IndexOrder, bound: Bound)
    requires Keyed(index, order)
    ensures forall d :: d in Prefixed(index, order, bound)
              <==> exists k :: k in index && index[k] == d && Agrees(order, bound, d.Eav())
  {
    hide PrefixKey, Agrees, PartsOf, PrefixScan, Less;
    var prefix := PrefixKey(PartsOf(order), bound);
    PrefixScanIsExact(index, prefix);
    var keys := PrefixScan(index, prefix);
    DatomsOfMembers(index, keys);
    forall k | k in index ensures k in keys <==> Agrees(order, bound, index[k].Eav()) {
      KeyAgrees(order, bound, index[k].Eav(), k);
    }
  }

  lemma PrefixedOrder(index: Index, order: IndexOrder, bound: Bound)
    requires Keyed(index, order) && OneKeyEach(index)
    ensures InFactOrder(order, Prefixed(index, order, bound))
  {
    hide PrefixKey, PartsOf, PrefixScan, Less, Components, FactLess;
    var prefix := PrefixKey(PartsOf(order), bound);
    PrefixScanIsExact(index, prefix);
    var keys := PrefixScan(index, prefix);
    var rows := Prefixed(index, order, bound);
    forall i, j | 0 <= i < j < |rows| ensures FactLess(order, rows[i].Eav(), rows[j].Eav()) {
      assert keys[i] in keys && keys[j] in keys;
      KeyedOrder(order, keys[i], keys[j], rows[i].Eav(), rows[j].Eav());
      LessIsTotal(keys[i], keys[j]);
    }
  }

  /** What an order covers: AVET the indexed and the unique attributes, VAET the references. */
  predicate Holds(schema: Schema, order: IndexOrder, f: Fact) {
    && (order.Avet? ==> f.a in schema.attrs && (schema.attrs[f.a].indexed || schema.attrs[f.a].unique.Some?))
    && (order.Vaet? ==> f.v.Ref?)
  }

  /**
   * On live views, in every order and for any components bound: the live facts the order covers that have the leading
   * bound components, each once, in the order's own order.
   */
  lemma PrefixAnswers(schema: Schema, log: seq<Datom>, view: View, order: IndexOrder, bound: Bound)
    requires !view.History?
    ensures var live := Selected(log, view);
            var rows := Prefixed(ViewIndexes(schema, log, view).At(order), order, bound);
            && InFactOrder(order, rows)
            && (forall d :: d in rows <==>
                  && d.Eav() in live && live[d.Eav()] == d
                  && Holds(schema, order, d.Eav()) && Agrees(order, bound, d.Eav()))
  {
    hide Project, Components, Agrees, Prefixed, InFactOrder, Selected;
    var live := Selected(log, view);
    SelectedIsWellKeyed(log, view);
    ProjectIsKeyed(schema, order, live);
    var index := Project(schema, order, live);
    assert ViewIndexes(schema, log, view).At(order) == index;
    PrefixedMembers(index, order, bound);
    PrefixedOrder(index, order, bound);
    forall d: Datom ensures Covered(schema, order, d.Eav()) <==> Holds(schema, order, d.Eav()) {}
  }

  /** The references to an entity: VAET from that value. */
  lemma ReferencesTo(schema: Schema, log: seq<Datom>, view: View, x: EntityId)
    requires !view.History?
    ensures var live := Selected(log, view);
            var rows := Prefixed(ViewIndexes(schema, log, view).vaet, Vaet, Bound(None, None, Some(Ref(x))));
            forall d :: d in rows <==> d.Eav() in live && live[d.Eav()] == d && d.v == Ref(x)
  {
    hide Prefixed, Selected, ViewIndexes, InFactOrder;
    PrefixAnswers(schema, log, view, Vaet, Bound(None, None, Some(Ref(x))));
  }

  /** `values`: what a live view holds for an entity and attribute, ascending. */
  lemma ValuesOf(schema: Schema, log: seq<Datom>, view: View, e: EntityId, a: EntityId)
    requires !view.History?
    ensures var live := Selected(log, view);
            var rows := Prefixed(ViewIndexes(schema, log, view).eavt, Eavt, Bound(Some(e), Some(a), None));
            && (forall d :: d in rows <==> d.Eav() in live && live[d.Eav()] == d && d.e == e && d.a == a)
            && (forall i, j :: 0 <= i < j < |rows| ==> ValueLess(rows[i].v, rows[j].v))
  {
    hide Prefixed, Selected, ViewIndexes, ValueLess;
    PrefixAnswers(schema, log, view, Eavt, Bound(Some(e), Some(a), None));
    var rows := Prefixed(ViewIndexes(schema, log, view).eavt, Eavt, Bound(Some(e), Some(a), None));
    forall i, j | 0 <= i < j < |rows| ensures ValueLess(rows[i].v, rows[j].v) {
      assert rows[i] in rows && rows[j] in rows;
    }
  }

  /** On the history view: every recorded datom of a retained attribute that the order covers and that agrees. */
  lemma HistoryPrefixAnswers(schema: Schema, log: seq<Datom>, order: IndexOrder, bound: Bound)
    requires TxFits(log)
    ensures forall d :: d in Prefixed(ViewIndexes(schema, log, History).At(order), order, bound) <==>
              && d in log && !(d.a in schema.attrs && schema.attrs[d.a].noHistory)
              && Holds(schema, order, d.Eav()) && Agrees(order, bound, d.Eav())
  {
    hide HistoryIndex, Components, Agrees, Prefixed;
    var index := HistoryIndex(schema, order, log);
    assert ViewIndexes(schema, log, History).At(order) == index;
    HistoryMembers(schema, order, log);
    PrefixedMembers(index, order, bound);
    forall d | d in log
      ensures ShownIn(schema, order)(d)
              <==> !(d.a in schema.attrs && schema.attrs[d.a].noHistory) && Holds(schema, order, d.Eav())
    {}
  }
}
