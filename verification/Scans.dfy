/** Range and prefix scans over covering indexes, and what they answer about values. */
module Scans {
  import opened Options
  import opened Bytes
  import opened Values
  import opened Encoding
  import opened Datoms
  import opened Liveness
  import opened Schemas
  import opened Projection
  import opened Sorting
  import opened Indexes

  // ---------------------------------------------------------------------
  // Iterators
  // ---------------------------------------------------------------------

  function TakeWhile<T>(q: seq<T>, p: T -> bool): seq<T> {
    if q == [] || !p(q[0]) then [] else [q[0]] + TakeWhile(q[1..], p)
  }

  /** Where a property can only be lost along a sorted sequence, taking while it lasts is filtering by it. */
  lemma {:induction false} TakeWhileFilters<T(!new)>(less: (T, T) -> bool, q: seq<T>, p: T -> bool)
    requires Sorted(less, q)
    requires forall i, j :: 0 <= i < j < |q| && p(q[j]) ==> p(q[i])
    ensures Sorted(less, TakeWhile(q, p))
    ensures forall x :: x in TakeWhile(q, p) <==> x in q && p(x)
    ensures TakeWhile(q, p) <= q
    decreases |q|
  {
    if q != [] && p(q[0]) {
      var rest := q[1..];
      forall i, j | 0 <= i < j < |rest| && p(rest[j]) ensures p(rest[i]) { assert p(q[j + 1]) ==> p(q[i + 1]); }
      TakeWhileFilters(less, rest, p);
      assert q == [q[0]] + rest;
    } else {
      forall x | x in q ensures !p(x) {
        var j :| 0 <= j < |q| && q[j] == x;
      }
    }
  }

  /** `range(start..)`: the keys at or after `start`, ascending. */
  ghost function KeysFrom(index: Index, start: seq<byte>): seq<seq<byte>> {
    BytesOrder();
    Ordered(Less, set k | k in index && AtMost(start, k))
  }

  function HasPrefix(prefix: seq<byte>): seq<byte> -> bool { k => prefix <= k }

  /** The scan behind `datoms_prefix`: seek to the prefix and take while keys carry it. */
  ghost function PrefixScan(index: Index, prefix: seq<byte>): seq<seq<byte>> {
    TakeWhile(KeysFrom(index, prefix), HasPrefix(prefix))
  }

  /**
   * Seek anywhere at or after a prefix and take while keys carry it: exactly the keys with the prefix from there on.
   */
  lemma ScanFromIsExact(index: Index, prefix: seq<byte>, start: seq<byte>)
    requires prefix <= start
    ensures var scan := TakeWhile(KeysFrom(index, start), HasPrefix(prefix));
            && Sorted(Less, scan)
            && (forall k :: k in scan <==> k in index && prefix <= k && AtMost(start, k))
  {
    BytesOrder();
    var keys := KeysFrom(index, start);
    OrderedMeaning(Less, set k | k in index && AtMost(start, k));
    forall i, j | 0 <= i < j < |keys| && HasPrefix(prefix)(keys[j]) ensures HasPrefix(prefix)(keys[i]) {
      assert keys[i] in keys && keys[j] in keys;
      PrefixIsAtMost(prefix, start[|prefix|..]);
      assert start == prefix + start[|prefix|..];
      AtMostTransitive(prefix, start, keys[i]);
      PrefixIsConvex(prefix, keys[i], keys[j]);
    }
    TakeWhileFilters(Less, keys, HasPrefix(prefix));
  }

  lemma AtMostTransitive(a: seq<byte>, b: seq<byte>, c: seq<byte>)
    requires AtMost(a, b) && AtMost(b, c)
    ensures AtMost(a, c)
  {
    if Less(a, b) && Less(b, c) { LessIsTransitive(a, b, c); }
  }

  /** A prefix scan finds exactly the keys with the prefix, ascending. */
  lemma PrefixScanIsExact(index: Index, prefix: seq<byte>)
    ensures Sorted(Less, PrefixScan(index, prefix))
    ensures forall k :: k in PrefixScan(index, prefix) <==> k in index && prefix <= k
  {
    ScanFromIsExact(index, prefix, prefix);
    forall k | prefix <= k ensures AtMost(prefix, k) {
      assert k == prefix + k[|prefix|..];
      PrefixIsAtMost(prefix, k[|prefix|..]);
    }
  }

  function DatomsOf(index: Index, keys: seq<seq<byte>>): (ds: seq<Datom>)
    requires forall k :: k in keys ==> k in index
    ensures |ds| == |keys| && forall i :: 0 <= i < |keys| ==> ds[i] == index[keys[i]]
  {
    seq(|keys|, i requires 0 <= i < |keys| => index[keys[i]])
  }

  lemma DatomsOfMembers(index: Index, keys: seq<seq<byte>>)
    requires forall k :: k in keys ==> k in index
    ensures forall d :: d in DatomsOf(index, keys) <==> exists k :: k in keys && index[k] == d
  {
    var ds := DatomsOf(index, keys);
    forall d ensures d in ds <==> exists k :: k in keys && index[k] == d {
      if d in ds { var i :| 0 <= i < |ds| && ds[i] == d; assert keys[i] in keys; }
      if exists k :: k in keys && index[k] == d {
        var k :| k in keys && index[k] == d;
        var i :| 0 <= i < |keys| && keys[i] == k;
        assert ds[i] == d;
      }
    }
  }

  /** `datoms_at`: the whole index in key order. */
  ghost function InOrder(index: Index): seq<Datom> {
    BytesOrder();
    OrderedMeaning(Less, index.Keys);
    DatomsOf(index, Ordered(Less, index.Keys))
  }

  lemma InOrderMembers(index: Index)
    ensures forall d :: d in InOrder(index) <==> exists k :: k in index && index[k] == d
  {
    hide Less;
    BytesOrder();
    OrderedMeaning(Less, index.Keys);
    DatomsOfMembers(index, Ordered(Less, index.Keys));
  }

  // ---------------------------------------------------------------------
  // What a key says about its datom
  // ---------------------------------------------------------------------

  /** Every key of the index begins with the components of the datom it holds. */
  ghost predicate Keyed(index: Index, order: IndexOrder) {
    forall k :: k in index ==> Components(order, index[k].Eav()) <= k
  }

  lemma IdPrefix(a: EntityId, b: EntityId, rest: seq<byte>)
    ensures U64Key(a) <= U64Key(b) + rest <==> a == b
  {
    if a < b {
      U64KeyOrders(a, b);
      DivergesExtends(U64Key(a), U64Key(b), [], rest);
      assert U64Key(a) + [] == U64Key(a);
      NotPrefix(U64Key(a), U64Key(b), rest);
    } else if b < a {
      U64KeyOrders(b, a);
      DivergesExtends(U64Key(b), U64Key(a), rest, []);
      NotPrefix(U64Key(a), U64Key(b), rest);
    }
  }

  /** Two byte strings of one length: a prefix of an extension is the string itself. */
  lemma NotPrefix(x: seq<byte>, y: seq<byte>, rest: seq<byte>)
    requires |x| == |y| && x != y
    ensures !(x <= y + rest)
  {
    assert (y + rest)[..|y|] == y;
  }

  lemma ValuePrefix(v: Value, w: Value, rest: seq<byte>)
    ensures Encode(v) <= Encode(w) + rest <==> v == w
    ensures AtMost(Encode(v), Encode(w) + rest) <==> ValueAtMost(v, w)
  {
    ValueLessIsTotal(v, w);
    LessIsTotal(Encode(v), Encode(w) + rest);
    var x, y := Encode(v), Encode(w) + rest;
    assert x + [] == x;
    if ValueLess(v, w) {
      EncodeOrders(v, w);
      DivergesExtends(Encode(v), Encode(w), [], rest);
      DivergesExtends(x, y, [], []);
    } else if ValueLess(w, v) {
      EncodeOrders(w, v);
      DivergesExtends(Encode(w), Encode(v), rest, []);
      DivergesExtends(y, x, [], []);
    } else {
      PrefixIsAtMost(x, rest);
    }
  }

  /** An AVET key read against an attribute and a value bound. */
  lemma AvetKey(k: seq<byte>, f: Fact, a: EntityId, v: Value)
    requires Components(Avet, f) <= k
    ensures U64Key(a) <= k <==> f.a == a
    ensures U64Key(a) + Encode(v) <= k <==> f.a == a && f.v == v
    ensures f.a == a ==> (AtMost(U64Key(a) + Encode(v), k) <==> ValueAtMost(v, f.v))
    ensures f.a == a ==> AtMost(U64Key(a), k)
  {
    hide Encode, U64Key, ValueLess, Less;
    var tail := k[|Components(Avet, f)|..];
    var rest := U64Key(f.e) + tail;
    assert k == U64Key(f.a) + (Encode(f.v) + rest) by { assert k == Components(Avet, f) + tail; }
    IdPrefix(a, f.a, Encode(f.v) + rest);
    ValuePrefix(v, f.v, rest);
    if f.a == a {
      DivergesAfter(U64Key(a), Encode(v), Encode(f.v) + rest);
      PrefixIsAtMost(U64Key(a), Encode(f.v) + rest);
      PrefixAfter(U64Key(a), Encode(v), Encode(f.v) + rest);
    }
  }

  lemma PrefixAfter(p: seq<byte>, x: seq<byte>, y: seq<byte>)
    ensures p + x <= p + y <==> x <= y
    ensures p + x == p + y <==> x == y
  {
    if p + x <= p + y {
      assert (p + x)[|p|..] == x && (p + y)[|p|..] == y;
      assert x == (p + y)[|p|..|p| + |x|];
    }
    if p + x == p + y { assert (p + x)[|p|..] == x && (p + y)[|p|..] == y; }
  }

  lemma AevtKey(k: seq<byte>, f: Fact, a: EntityId)
    requires Components(Aevt, f) <= k
    ensures U64Key(a) <= k <==> f.a == a
  {
    hide Encode, U64Key;
    var tail := k[|Components(Aevt, f)|..];
    assert k == U64Key(f.a) + (U64Key(f.e) + Encode(f.v) + tail) by { assert k == Components(Aevt, f) + tail; }
    IdPrefix(a, f.a, U64Key(f.e) + Encode(f.v) + tail);
  }

  /** Keys in byte order hold facts in component order, or the same fact. */
  lemma KeyedOrder(order: IndexOrder, k: seq<byte>, l: seq<byte>, f: Fact, g: Fact)
    requires Components(order, f) <= k && Components(order, g) <= l && Less(k, l)
    ensures f == g || FactLess(order, f, g)
  {
    hide Components, FactLess;
    FactLessIsTotal(order, f, g);
    if FactLess(order, g, f) {
      FactLessDiverges(order, g, f);
      var x, y := Components(order, g), Components(order, f);
      DivergesExtends(x, y, l[|x|..], k[|y|..]);
      assert l == x + l[|x|..] && k == y + k[|y|..];
      LessIsTotal(k, l);
    }
  }

  // ---------------------------------------------------------------------
  // index_range
  // ---------------------------------------------------------------------

  datatype RangeResult = Rows(rows: seq<Datom>) | Protected(attribute: EntityId)

  function BelowEnd(end: Option<Value>): Datom -> bool {
    (d: Datom) => end.None? || ValueLess(d.v, end.value)
  }

  /** `index_range` over the AVET index of a view. */
  ghost function IndexRange(schema: Schema, avet: Index, a: EntityId, start: Option<Value>,
                            end: Option<Value>): RangeResult
  {
    if EverProtected(schema, a) then Protected(a) else
    var prefix := PrefixKey(PartsOf(Avet), Bound(None, Some(a), None));
    var from := PrefixKey(PartsOf(Avet), Bound(None, Some(a), start));
    RangeKeys(a, start);
    var keys := TakeWhile(KeysFrom(avet, from), HasPrefix(prefix));
    ScanFromIsExact(avet, prefix, from);
    Rows(TakeWhile(DatomsOf(avet, keys), BelowEnd(end)))
  }

  lemma RangeKeys(a: EntityId, start: Option<Value>)
    ensures PrefixKey(PartsOf(Avet), Bound(None, Some(a), None)) == U64Key(a)
    ensures PrefixKey(PartsOf(Avet), Bound(None, Some(a), start))
            == if start.Some? then U64Key(a) + Encode(start.value) else U64Key(a)
    ensures U64Key(a) <= PrefixKey(PartsOf(Avet), Bound(None, Some(a), start))
  {
    hide U64Key, Encode;
    var parts := PartsOf(Avet);
    assert parts[1..] == [ValuePart, EntityPart] && parts[1..][1..] == [EntityPart];
    assert PrefixKey([EntityPart], Bound(None, Some(a), start)) == [];
  }

  predicate InRange(d: Datom, a: EntityId, start: Option<Value>, end: Option<Value>) {
    && d.a == a
    && (start.Some? ==> ValueAtMost(start.value, d.v))
    && (end.Some? ==> ValueLess(d.v, end.value))
  }

  /** Rows ascend by value, then by entity; where a fact recurs (history) it recurs in a run. */
  ghost predicate ByValueThenEntity(rows: seq<Datom>) {
    forall i, j :: 0 <= i < j < |rows| ==>
      ValueLess(rows[i].v, rows[j].v) || (rows[i].v == rows[j].v && rows[i].e <= rows[j].e)
  }

  /** Rows strictly ascend: each fact comes once. */
  ghost predicate StrictlyByValueThenEntity(rows: seq<Datom>) {
    forall i, j :: 0 <= i < j < |rows| ==>
      ValueLess(rows[i].v, rows[j].v) || (rows[i].v == rows[j].v && rows[i].e < rows[j].e)
  }

  /** An index that holds each fact under one key. */
  ghost predicate OneKeyEach(index: Index) {
    forall k, l :: k in index && l in index && index[k].Eav() == index[l].Eav() ==> k == l
  }

  lemma ValueLessTransitive(u: Value, v: Value, w: Value)
    requires ValueAtMost(u, v) && ValueLess(v, w)
    ensures ValueLess(u, w)
  {
    EncodingIsOrderPreserving(u, v);
    EncodingIsOrderPreserving(v, w);
    EncodingIsOrderPreserving(u, w);
    if u != v { LessIsTransitive(Encode(u), Encode(v), Encode(w)); }
  }

  /** The scan before the upper bound applies: the attribute's entries from `start` on. */
  lemma RangeKeysAreExact(avet: Index, a: EntityId, start: Option<Value>, from: seq<byte>)
    requires Keyed(avet, Avet) && from == if start.Some? then U64Key(a) + Encode(start.value) else U64Key(a)
    ensures var keys := TakeWhile(KeysFrom(avet, from), HasPrefix(U64Key(a)));
            && Sorted(Less, keys)
            && (forall k :: k in keys <==>
                  k in avet && avet[k].a == a && (start.Some? ==> ValueAtMost(start.value, avet[k].v)))
  {
    hide Encode, U64Key, ValueLess, Less, Components;
    ScanFromIsExact(avet, U64Key(a), from);
    forall k | k in avet
      ensures U64Key(a) <= k && AtMost(from, k)
              <==> avet[k].a == a && (start.Some? ==> ValueAtMost(start.value, avet[k].v))
    {
      AvetKey(k, avet[k].Eav(), a, if start.Some? then start.value else avet[k].v);
    }
  }

  lemma RowsBelowEnd(ds: seq<Datom>, end: Option<Value>)
    requires ByValueThenEntity(ds)
    ensures ByValueThenEntity(TakeWhile(ds, BelowEnd(end)))
    ensures StrictlyByValueThenEntity(ds) ==> StrictlyByValueThenEntity(TakeWhile(ds, BelowEnd(end)))
    ensures forall d :: d in TakeWhile(ds, BelowEnd(end)) <==> d in ds && (end.Some? ==> ValueLess(d.v, end.value))
  {
    hide ValueLess;
    forall i, j | 0 <= i < j < |ds| && BelowEnd(end)(ds[j]) ensures BelowEnd(end)(ds[i]) {
      if end.Some? { ValueLessTransitive(ds[i].v, ds[j].v, end.value); }
    }
    TakeWhileFilters((x, y) => true, ds, BelowEnd(end));
    assert forall d :: BelowEnd(end)(d) <==> (end.Some? ==> ValueLess(d.v, end.value));
  }

  /** On any AVET index, a range returns exactly its entries with `start <= v < end`, by value then entity. */
  lemma RangeIsExact(schema: Schema, avet: Index, a: EntityId, start: Option<Value>, end: Option<Value>)
    requires Keyed(avet, Avet) && !EverProtected(schema, a)
    ensures var r := IndexRange(schema, avet, a, start, end);
            && r.Rows? && ByValueThenEntity(r.rows) && (OneKeyEach(avet) ==> StrictlyByValueThenEntity(r.rows))
            && (forall d :: d in r.rows <==> exists k :: k in avet && avet[k] == d && InRange(d, a, start, end))
  {
    hide Encode, U64Key, ValueLess, Less, Components, TakeWhile, KeysFrom, ByValueThenEntity, StrictlyByValueThenEntity;
    hide OneKeyEach;
    RangeKeys(a, start);
    var from := PrefixKey(PartsOf(Avet), Bound(None, Some(a), start));
    var keys := TakeWhile(KeysFrom(avet, from), HasPrefix(U64Key(a)));
    RangeKeysAreExact(avet, a, start, from);
    var ds := DatomsOf(avet, keys);
    RangeOrdered(avet, a, keys);
    if OneKeyEach(avet) { RangeStrict(avet, a, keys); }
    RowsBelowEnd(ds, end);
    DatomsOfMembers(avet, keys);
  }

  lemma RangeStrict(avet: Index, a: EntityId, keys: seq<seq<byte>>)
    requires Keyed(avet, Avet) && Sorted(Less, keys) && OneKeyEach(avet)
    requires forall k :: k in keys ==> k in avet && avet[k].a == a
    ensures StrictlyByValueThenEntity(DatomsOf(avet, keys))
  {
    hide Encode, U64Key, ValueLess, Less, Components;
    var ds := DatomsOf(avet, keys);
    RangeOrdered(avet, a, keys);
    forall i, j | 0 <= i < j < |ds|
      ensures ValueLess(ds[i].v, ds[j].v) || (ds[i].v == ds[j].v && ds[i].e < ds[j].e)
    {
      assert keys[i] in keys && keys[j] in keys;
      LessIsTotal(keys[i], keys[j]);
    }
  }

  lemma RangeOrdered(avet: Index, a: EntityId, keys: seq<seq<byte>>)
    requires Keyed(avet, Avet) && Sorted(Less, keys)
    requires forall k :: k in keys ==> k in avet && avet[k].a == a
    ensures ByValueThenEntity(DatomsOf(avet, keys))
  {
    hide Encode, U64Key, ValueLess, Less, Components;
    var ds := DatomsOf(avet, keys);
    forall i, j | 0 <= i < j < |ds|
      ensures ValueLess(ds[i].v, ds[j].v) || (ds[i].v == ds[j].v && ds[i].e <= ds[j].e)
    {
      assert keys[i] in keys && keys[j] in keys;
      KeyedOrder(Avet, keys[i], keys[j], ds[i].Eav(), ds[j].Eav());
    }
  }

  // ---------------------------------------------------------------------
  // The indexes of a view are keyed
  // ---------------------------------------------------------------------

  lemma ProjectIsKeyed(schema: Schema, order: IndexOrder, live: LiveSet)
    requires WellKeyed(live)
    ensures Keyed(Project(schema, order, live), order)
    ensures forall k :: k in Project(schema, order, live) ==>
              var d := Project(schema, order, live)[k];
              d.Eav() in live && live[d.Eav()] == d && k == Components(order, d.Eav())
                  && Covered(schema, order, d.Eav())
    ensures forall f :: f in live && Covered(schema, order, f) ==>
              Components(order, f) in Project(schema, order, live)
                  && Project(schema, order, live)[Components(order, f)] == live[f]
  {
    hide Components, FactAt;
    KeyOfInverts(order);
    assert forall f :: KeyOf(order)(f) == Components(order, f);
    forall f | f in live && Covered(schema, order, f)
      ensures Components(order, f) in Project(schema, order, live)
              && Project(schema, order, live)[Components(order, f)] == live[f]
    {
      RekeyHolds(KeyOf(order), FactAt(order), CoveredIn(schema, order), live, f);
    }
  }

  lemma SelectedIsWellKeyed(log: seq<Datom>, view: View)
    requires !view.History?
    ensures WellKeyed(Selected(log, view))
  {
    ReplayIsWellKeyed(map[], if view.AsOf? then UpTo(log, view.t) else log);
  }

  lemma RangeRefuses(schema: Schema, avet: Index, a: EntityId, start: Option<Value>, end: Option<Value>)
    requires EverProtected(schema, a)
    ensures IndexRange(schema, avet, a, start, end) == Protected(a)
  {}

  lemma RangeAllowed(schema: Schema, log: seq<Datom>, view: View, a: EntityId, start: Option<Value>,
                     end: Option<Value>)
    requires !view.History? && !EverProtected(schema, a)
    ensures var live := Selected(log, view);
            var r := IndexRange(schema, ViewIndexes(schema, log, view).avet, a, start, end);
            && r.Rows? && StrictlyByValueThenEntity(r.rows)
            && (forall d :: d in r.rows <==>
                  d.Eav() in live && live[d.Eav()] == d && InRange(d, a, start, end) && AvetCovered(schema, a))
  {
    hide IndexRange, Project, ValueLess, Components, ByValueThenEntity, StrictlyByValueThenEntity;
    var live := Selected(log, view);
    SelectedIsWellKeyed(log, view);
    ProjectIsKeyed(schema, Avet, live);
    var avet := Project(schema, Avet, live);
    RangeIsExact(schema, avet, a, start, end);
    var r := IndexRange(schema, avet, a, start, end);
    forall d ensures d in r.rows <==>
        d.Eav() in live && live[d.Eav()] == d && InRange(d, a, start, end) && AvetCovered(schema, a)
    {
      if d.Eav() in live && live[d.Eav()] == d && InRange(d, a, start, end) && AvetCovered(schema, a) {
        assert Covered(schema, Avet, d.Eav());
        assert avet[Components(Avet, d.Eav())] == d;
      }
    }
  }

  /**
   * On live views: refused for an attribute that ever had a protection class, and otherwise the live facts in range,
   * each once, in (v, e) order, of an attribute that is indexed or unique, and none of any other.
   */
  lemma RangeAnswersValues(schema: Schema, log: seq<Datom>, view: View, a: EntityId, start: Option<Value>,
                           end: Option<Value>)
    requires !view.History?
    ensures var live := Selected(log, view);
            var r := IndexRange(schema, ViewIndexes(schema, log, view).avet, a, start, end);
            if exists i :: 0 <= i < |Timeline(schema, a)| && Timeline(schema, a)[i].1.Some? then r == Protected(a) else
            && r.Rows? && StrictlyByValueThenEntity(r.rows)
            && (forall d :: d in r.rows <==>
                  && d.Eav() in live && live[d.Eav()] == d && InRange(d, a, start, end)
                  && a in schema.attrs && (schema.attrs[a].indexed || schema.attrs[a].unique.Some?))
  {
    hide IndexRange, ViewIndexes, StrictlyByValueThenEntity, InRange, Selected;
    if EverProtected(schema, a) {
      RangeRefuses(schema, ViewIndexes(schema, log, view).avet, a, start, end);
    } else {
      RangeAllowed(schema, log, view, a, start, end);
    }
  }

  // ---------------------------------------------------------------------
  // lookup
  // ---------------------------------------------------------------------

  function FirstHolding(ds: seq<Datom>, v: Value): Option<EntityId> {
    if ds == [] then None else if ds[0].v == v then Some(ds[0].e) else FirstHolding(ds[1..], v)
  }

  /** `lookup`: seek AVET where the attribute is covered, otherwise search its AEVT rows. */
  ghost function Lookup(schema: Schema, ix: Indexes, a: EntityId, v: Value): Option<EntityId> {
    if AvetCovered(schema, a) then
      var keys := PrefixScan(ix.avet, U64Key(a) + Encode(v));
      PrefixScanIsExact(ix.avet, U64Key(a) + Encode(v));
      if keys == [] then None else assert keys[0] in keys; Some(ix.avet[keys[0]].e)
    else
      var keys := PrefixScan(ix.aevt, U64Key(a));
      PrefixScanIsExact(ix.aevt, U64Key(a));
      FirstHolding(DatomsOf(ix.aevt, keys), v)
  }

  /** The answer, said of the live facts alone: the least entity holding the value, or none. */
  ghost predicate LeastHolder(live: LiveSet, a: EntityId, v: Value, r: Option<EntityId>) {
    match r
    case Some(e) => Fact(e, a, v) in live && forall e' :: Fact(e', a, v) in live ==> e <= e'
    case None => forall e' :: Fact(e', a, v) !in live
  }

  lemma LookupByValue(schema: Schema, live: LiveSet, a: EntityId, v: Value)
    requires WellKeyed(live) && AvetCovered(schema, a)
    ensures LeastHolder(live, a, v, Lookup(schema, ProjectAll(schema, live), a, v))
  {
    hide Encode, U64Key, ValueLess, Less, Components, Project;
    var avet := Project(schema, Avet, live);
    ProjectIsKeyed(schema, Avet, live);
    var keys := PrefixScan(avet, U64Key(a) + Encode(v));
    PrefixScanIsExact(avet, U64Key(a) + Encode(v));
    forall e' | Fact(e', a, v) in live
      ensures Components(Avet, Fact(e', a, v)) in keys
    {
      AvetKey(Components(Avet, Fact(e', a, v)), Fact(e', a, v), a, v);
    }
    if keys != [] {
      assert keys[0] in keys;
      var f := avet[keys[0]].Eav();
      AvetKey(keys[0], f, a, v);
      forall e' | Fact(e', a, v) in live ensures f.e <= e' {
        var k := Components(Avet, Fact(e', a, v));
        var i :| 0 <= i < |keys| && keys[i] == k;
        if i > 0 { KeyedOrder(Avet, keys[0], k, f, Fact(e', a, v)); ValueLessIsTotal(v, v); }
      }
    }
  }

  /** The rows of an attribute in AEVT: its live datoms, by entity then value. */
  ghost function RowsFor(ix: Indexes, a: EntityId): seq<Datom> {
    PrefixScanIsExact(ix.aevt, U64Key(a));
    DatomsOf(ix.aevt, PrefixScan(ix.aevt, U64Key(a)))
  }

  ghost predicate ByEntityThenValue(rows: seq<Datom>) {
    forall i, j :: 0 <= i < j < |rows| ==>
      rows[i].e < rows[j].e || (rows[i].e == rows[j].e && ValueLess(rows[i].v, rows[j].v))
  }

  /** `datoms_for_attribute` on a live view: each live datom of the attribute once, by entity then value. */
  lemma RowsAreExact(schema: Schema, live: LiveSet, a: EntityId)
    requires WellKeyed(live)
    ensures var rows := RowsFor(ProjectAll(schema, live), a);
            && ByEntityThenValue(rows)
            && (forall d :: d in rows <==> d.a == a && d.Eav() in live && live[d.Eav()] == d)
  {
    hide U64Key, ValueLess, Less, Components, Project, PrefixScan;
    var aevt := Project(schema, Aevt, live);
    ProjectIsKeyed(schema, Aevt, live);
    PrefixScanIsExact(aevt, U64Key(a));
    var keys := PrefixScan(aevt, U64Key(a));
    var rows := RowsFor(ProjectAll(schema, live), a);
    assert rows == DatomsOf(aevt, keys);
    forall k | k in aevt ensures k in keys <==> aevt[k].a == a { AevtKey(k, aevt[k].Eav(), a); }
    forall i, j | 0 <= i < j < |rows|
      ensures rows[i].e < rows[j].e || (rows[i].e == rows[j].e && ValueLess(rows[i].v, rows[j].v))
    {
      assert keys[i] in keys && keys[j] in keys;
      KeyedOrder(Aevt, keys[i], keys[j], rows[i].Eav(), rows[j].Eav());
      LessIsTotal(keys[i], keys[j]);
    }
    DatomsOfMembers(aevt, keys);
    forall d ensures d in rows <==> d.a == a && d.Eav() in live && live[d.Eav()] == d {
      if d.a == a && d.Eav() in live && live[d.Eav()] == d {
        assert Components(Aevt, d.Eav()) in keys;
      }
    }
  }

  lemma {:induction false} FirstHoldingIsLeast(ds: seq<Datom>, v: Value)
    requires forall i, j :: 0 <= i < j < |ds| ==> ds[i].e <= ds[j].e
    ensures match FirstHolding(ds, v)
            case Some(e) => (exists i :: 0 <= i < |ds| && ds[i].v == v && ds[i].e == e)
                            && forall i :: 0 <= i < |ds| && ds[i].v == v ==> e <= ds[i].e
            case None => forall i :: 0 <= i < |ds| ==> ds[i].v != v
    decreases |ds|
  {
    if ds != [] && ds[0].v != v {
      FirstHoldingIsLeast(ds[1..], v);
      forall i | 0 <= i < |ds| && ds[i].v == v ensures i > 0 && ds[1..][i - 1] == ds[i] {}
      if FirstHolding(ds, v).Some? {
        var i :| 0 <= i < |ds[1..]| && ds[1..][i].v == v && ds[1..][i].e == FirstHolding(ds, v).value;
        assert ds[i + 1] == ds[1..][i];
      }
    }
  }

  lemma LookupByScan(schema: Schema, live: LiveSet, a: EntityId, v: Value)
    requires WellKeyed(live) && !AvetCovered(schema, a)
    ensures LeastHolder(live, a, v, Lookup(schema, ProjectAll(schema, live), a, v))
  {
    hide Encode, U64Key, ValueLess, Less, Components, Project;
    RowsAreExact(schema, live, a);
    var rows := RowsFor(ProjectAll(schema, live), a);
    FirstHoldingIsLeast(rows, v);
    forall e' | Fact(e', a, v) in live
      ensures exists i :: 0 <= i < |rows| && rows[i].v == v && rows[i].e == e'
    {
      var d := live[Fact(e', a, v)];
      assert d in rows;
    }
    forall i | 0 <= i < |rows| && rows[i].v == v ensures Fact(rows[i].e, a, v) in live {
      assert rows[i] in rows;
      assert rows[i].Eav() == Fact(rows[i].e, a, v);
    }
  }

  /** Whichever branch runs, `lookup` on a live view returns the least entity holding the value. */
  lemma LookupIsLeast(schema: Schema, log: seq<Datom>, view: View, a: EntityId, v: Value)
    requires !view.History?
    ensures LeastHolder(Selected(log, view), a, v, Lookup(schema, ViewIndexes(schema, log, view), a, v))
  {
    SelectedIsWellKeyed(log, view);
    if AvetCovered(schema, a) {
      LookupByValue(schema, Selected(log, view), a, v);
    } else {
      LookupByScan(schema, Selected(log, view), a, v);
    }
  }
}
