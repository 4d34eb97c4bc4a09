/** Impact scans: what an attribute's live rows would violate. */
module Impact {
  import opened Options
  import opened Values
  import opened Datoms
  import opened Liveness
  import opened Schemas
  import opened Sorting
  import opened Indexes
  import opened Scans

  predicate IdLess(x: EntityId, y: EntityId) { x < y }

  lemma ValueOrder()
    ensures TotalOrder(ValueLess)
  {
    forall x: Value ensures !ValueLess(x, x) { ValueLessIsTotal(x, x); }
    forall x: Value, y: Value ensures x == y || ValueLess(x, y) || ValueLess(y, x) { ValueLessIsTotal(x, y); }
    forall x: Value, y: Value, z: Value | ValueLess(x, y) && ValueLess(y, z) ensures ValueLess(x, z) {
      ValueLessTransitive(x, y, z);
    }
  }

  /** Pairing a value with each of a set of entities makes as many pairs. */
  lemma {:induction false} PairCount(v: Value, holders: set<EntityId>, pairs: set<(Value, EntityId)>)
    requires forall p :: p in pairs <==> p.0 == v && p.1 in holders
    ensures |pairs| == |holders|
    decreases holders
  {
    if holders == {} {
      assert pairs == {};
    } else {
      var e :| e in holders;
      PairCount(v, holders - {e}, pairs - {(v, e)});
      assert (v, e) in pairs;
    }
  }

  function Among<T>(keys: seq<T>, s: set<T>): set<T> { set x | x in keys && x in s }

  /** Walking a sorted listing meets each member once. */
  lemma AmongGrows<T(!new)>(less: (T, T) -> bool, keys: seq<T>, i: nat, s: set<T>)
    requires TotalOrder(less) && Sorted(less, keys) && i < |keys|
    ensures keys[i] !in Among(keys[..i], s)
    ensures Among(keys[..i + 1], s) == Among(keys[..i], s) + if keys[i] in s then {keys[i]} else {}
  {
    assert keys[..i + 1] == keys[..i] + [keys[i]];
  }

  // ---------------------------------------------------------------------
  // The sets the scans measure
  // ---------------------------------------------------------------------

  function Entities(rows: seq<Datom>): set<EntityId> { set d | d in rows :: d.e }

  function ValuesIn(rows: seq<Datom>): set<Value> { set d | d in rows :: d.v }

  function HeldBy(rows: seq<Datom>, e: EntityId): set<Datom> { set d | d in rows && d.e == e }

  function HoldersOf(rows: seq<Datom>, v: Value): set<EntityId> { set d | d in rows && d.v == v :: d.e }

  /** Entities that hold several values. */
  function Conflicted(rows: seq<Datom>): set<EntityId> { set e | e in Entities(rows) && |HeldBy(rows, e)| > 1 }

  /** Values held by several entities. */
  function Shared(rows: seq<Datom>): set<Value> { set v | v in ValuesIn(rows) && |HoldersOf(rows, v)| > 1 }

  ghost predicate Distinct(rows: seq<Datom>) {
    forall i, j :: 0 <= i < j < |rows| ==> rows[i] != rows[j]
  }

  function DatomsBy(rows: seq<Datom>, es: set<EntityId>): set<Datom> { set d | d in rows && d.e in es }

  lemma HeldGrows(rows: seq<Datom>, d: Datom)
    requires d !in rows
    ensures Entities(rows + [d]) == Entities(rows) + {d.e}
    ensures forall e :: |HeldBy(rows + [d], e)| == |HeldBy(rows, e)| + if e == d.e then 1 else 0
    ensures d.e !in Entities(rows) ==> |HeldBy(rows, d.e)| == 0
  {
    forall e ensures |HeldBy(rows + [d], e)| == |HeldBy(rows, e)| + if e == d.e then 1 else 0 {
      assert HeldBy(rows + [d], e) == HeldBy(rows, e) + if e == d.e then {d} else {};
    }
    if d.e !in Entities(rows) { assert HeldBy(rows, d.e) == {}; }
  }

  lemma OneMoreEntity(rows: seq<Datom>, es: set<EntityId>, e: EntityId)
    requires e !in es
    ensures |DatomsBy(rows, es + {e})| == |DatomsBy(rows, es)| + |HeldBy(rows, e)|
  {
    assert DatomsBy(rows, es + {e}) == DatomsBy(rows, es) + HeldBy(rows, e);
    assert DatomsBy(rows, es) !! HeldBy(rows, e);
  }

  // ---------------------------------------------------------------------
  // attribute_impact
  // ---------------------------------------------------------------------

  method AttributeImpact(rows: seq<Datom>) returns (datoms: nat, entities: nat, values: nat)
    ensures datoms == |rows| && entities == |Entities(rows)| && values == |ValuesIn(rows)|
  {
    var es: set<EntityId>, vs: set<Value> := {}, {};
    datoms := 0;
    for i := 0 to |rows|
      invariant datoms == i && es == Entities(rows[..i]) && vs == ValuesIn(rows[..i])
    {
      assert rows[..i + 1] == rows[..i] + [rows[i]];
      datoms, es, vs := datoms + 1, es + {rows[i].e}, vs + {rows[i].v};
    }
    assert rows[..|rows|] == rows;
    entities, values := |es|, |vs|;
  }

  // ---------------------------------------------------------------------
  // cardinality_conflicts
  // ---------------------------------------------------------------------

  datatype CardinalityConflicts = CardinalityConflicts(entities: nat, datoms: nat, sample: seq<EntityId>)

  method CountPerEntity(rows: seq<Datom>) returns (held: map<EntityId, nat>)
    requires Distinct(rows)
    ensures held.Keys == Entities(rows) && forall e :: e in held ==> held[e] == |HeldBy(rows, e)|
  {
    assert Entities(rows[..0]) == {};
    hide Entities, HeldBy;
    held := map[];
    for i := 0 to |rows|
      invariant held.Keys == Entities(rows[..i])
      invariant forall e :: e in held ==> held[e] == |HeldBy(rows[..i], e)|
    {
      var d := rows[i];
      assert rows[..i + 1] == rows[..i] + [d];
      HeldGrows(rows[..i], d);
      held := held[d.e := 1 + if d.e in held then held[d.e] else 0];
    }
    assert rows[..|rows|] == rows;
  }

  ghost function Ascending(s: set<EntityId>): seq<EntityId> {
    IdOrder();
    Ordered(IdLess, s)
  }

  /** At most so many, from the front. */
  function First<T>(q: seq<T>, limit: nat): seq<T> { if |q| <= limit then q else q[..limit] }

  method NoteConflict(r: CardinalityConflicts, e: EntityId, held: nat, limit: nat, ghost listed: seq<EntityId>)
    returns (r': CardinalityConflicts)
    requires r.sample == First(listed, limit)
    ensures r'.entities == r.entities + 1 && r'.datoms == r.datoms + held
    ensures r'.sample == First(listed + [e], limit)
  {
    r' := CardinalityConflicts(r.entities + 1, r.datoms + held,
                               if |r.sample| < limit then r.sample + [e] else r.sample);
  }

  /**
   * `cardinality_conflicts`: the conflicted entities counted, the lowest of them listed, and every datom they hold
   * counted.
   */
  method FindCardinalityConflicts(rows: seq<Datom>, limit: nat) returns (r: CardinalityConflicts)
    requires Distinct(rows)
    ensures r.entities == |Conflicted(rows)|
    ensures r.datoms == |DatomsBy(rows, Conflicted(rows))|
    ensures r.sample == First(Ascending(Conflicted(rows)), limit)
  {
    hide DatomsBy, Conflicted, Among, HeldBy, Entities, TotalOrder, IdLess, Sorted, First;
    var held := CountPerEntity(rows);
    IdOrder();
    var keys := Iterate(IdLess, held.Keys);
    OrderedMeaning(IdLess, held.Keys);
    ConflictedIs(rows, held);
    r := CardinalityConflicts(0, 0, []);
    ghost var found: set<EntityId>, listed: seq<EntityId> := {}, [];
    NothingYet(rows, keys);
    NoneListed(IdLess, limit);
    for i := 0 to |keys|
      invariant found == Among(keys[..i], Conflicted(rows))
      invariant r.entities == |found| && r.datoms == |DatomsBy(rows, found)|
      invariant Sorted(IdLess, listed) && (forall x :: x in listed <==> x in found) && r.sample == First(listed, limit)
    {
      var e := keys[i];
      AmongGrows(IdLess, keys, i, Conflicted(rows));
      assert e in keys;
      if held[e] > 1 {
        OneMoreEntity(rows, found, e);
        OneMoreListed(IdLess, keys, i, Conflicted(rows), listed);
        r := NoteConflict(r, e, held[e], limit, listed);
        found, listed := found + {e}, listed + [e];
      }
    }
    AmongAll(keys, Conflicted(rows));
    OrderedIs(IdLess, Conflicted(rows), listed);
  }

  lemma NoneListed<T(!new)>(less: (T, T) -> bool, limit: nat)
    ensures Sorted(less, []) && First<T>([], limit) == []
  {}

  lemma OneMoreListed<T(!new)>(less: (T, T) -> bool, keys: seq<T>, i: nat, s: set<T>, listed: seq<T>)
    requires i < |keys| && Sorted(less, keys) && Sorted(less, listed)
    requires forall x :: x in listed ==> x in Among(keys[..i], s)
    ensures Sorted(less, listed + [keys[i]])
  {
    forall k | 0 <= k < |listed| ensures less(listed[k], keys[i]) {
      assert listed[k] in listed && listed[k] in keys[..i];
      var j :| 0 <= j < i && keys[j] == listed[k];
    }
  }

  lemma NothingYet(rows: seq<Datom>, keys: seq<EntityId>)
    ensures DatomsBy(rows, {}) == {} && Among(keys[..0], Conflicted(rows)) == {}
  {}

  lemma IdOrder()
    ensures TotalOrder(IdLess)
  {}

  lemma ConflictedIs(rows: seq<Datom>, held: map<EntityId, nat>)
    requires held.Keys == Entities(rows) && forall e :: e in held ==> held[e] == |HeldBy(rows, e)|
    ensures Conflicted(rows) <= held.Keys && forall e :: e in held ==> (e in Conflicted(rows) <==> held[e] > 1)
  {}

  lemma AmongAll<T(!new)>(keys: seq<T>, s: set<T>)
    requires forall x :: x in s ==> x in keys
    ensures Among(keys[..|keys|], s) == s
  {
    assert keys[..|keys|] == keys;
  }

  // ---------------------------------------------------------------------
  // duplicate_values
  // ---------------------------------------------------------------------

  datatype DuplicateValues = DuplicateValues(groups: nat, entities: nat, sample: seq<EntityId>)

  method GroupByValue(rows: seq<Datom>) returns (holders: map<Value, set<EntityId>>)
    ensures holders.Keys == ValuesIn(rows) && forall v :: v in holders ==> holders[v] == HoldersOf(rows, v)
  {
    holders := map[];
    for i := 0 to |rows|
      invariant holders.Keys == ValuesIn(rows[..i])
      invariant forall v :: v in holders ==> holders[v] == HoldersOf(rows[..i], v)
    {
      var d := rows[i];
      var before := if d.v in holders then holders[d.v] else {};
      assert rows[..i + 1] == rows[..i] + [d];
      assert d.v !in ValuesIn(rows[..i]) ==> HoldersOf(rows[..i], d.v) == {};
      forall v ensures HoldersOf(rows[..i + 1], v) == HoldersOf(rows[..i], v) + (if v == d.v then {d.e} else {}) {}
      holders := holders[d.v := before + {d.e}];
    }
    assert rows[..|rows|] == rows;
  }

  /** The holdings that uniqueness would reject, as (value, entity) pairs. */
  function SharedHoldings(rows: seq<Datom>, shared: set<Value>): set<(Value, EntityId)> {
    set d | d in rows && d.v in shared :: (d.v, d.e)
  }

  lemma OneMoreGroup(rows: seq<Datom>, shared: set<Value>, v: Value)
    requires v !in shared
    ensures |SharedHoldings(rows, shared + {v})| == |SharedHoldings(rows, shared)| + |HoldersOf(rows, v)|
  {
    var before, after := SharedHoldings(rows, shared), SharedHoldings(rows, shared + {v});
    assert before <= after;
    forall p ensures p in after - before <==> p.0 == v && p.1 in HoldersOf(rows, v) {
      if p.0 == v && p.1 in HoldersOf(rows, v) {
        var d :| d in rows && d.v == v && d.e == p.1;
        assert p == (d.v, d.e);
      }
    }
    PairCount(v, HoldersOf(rows, v), after - before);
  }

  method TakeSample(sample: seq<EntityId>, holders: set<EntityId>, limit: nat) returns (r: seq<EntityId>)
    requires |sample| <= limit
    ensures r == First(sample + Ascending(holders), limit)
  {
    r := sample;
    IdOrder();
    var listed := Iterate(IdLess, holders);
    for i := 0 to |listed|
      invariant r == sample + listed[..i] && |r| <= limit
    {
      if |r| >= limit {
        assert (sample + listed)[..limit] == sample + listed[..i];
        break;
      }
      r := r + [listed[i]];
    }
  }

  ghost function SharedInOrder(rows: seq<Datom>): seq<Value> {
    ValueOrder();
    Ordered(ValueLess, Shared(rows))
  }

  /** The holders of values in turn, each group ascending. */
  ghost function HoldersInTurn(rows: seq<Datom>, values: seq<Value>): seq<EntityId> {
    if values == [] then [] else
    HoldersInTurn(rows, values[..|values| - 1]) + Ascending(HoldersOf(rows, values[|values| - 1]))
  }

  lemma HoldersOfMore(rows: seq<Datom>, values: seq<Value>, v: Value)
    ensures HoldersInTurn(rows, values + [v]) == HoldersInTurn(rows, values) + Ascending(HoldersOf(rows, v))
  {
    assert (values + [v])[..|values|] == values;
  }

  lemma FirstOfTwo<T>(q: seq<T>, p: seq<T>, limit: nat)
    ensures First(First(q, limit) + p, limit) == First(q + p, limit) && |First(q, limit)| <= limit
  {
    if |q| > limit {
      assert (q[..limit] + p)[..limit] == q[..limit] == (q + p)[..limit];
      assert |q[..limit] + p| <= limit ==> q[..limit] + p == q[..limit];
    }
  }

  /**
   * `duplicate_values`: shared values counted, their holdings counted per value, and the first holders listed, value by
   * value.
   */
  method FindDuplicateValues(rows: seq<Datom>, limit: nat) returns (r: DuplicateValues)
    ensures r.groups == |Shared(rows)|
    ensures r.entities == |SharedHoldings(rows, Shared(rows))|
    ensures |Sharers(rows)| <= r.entities && (r.entities == |Sharers(rows)| <==> ShareOnce(rows))
    ensures r.sample == First(HoldersInTurn(rows, SharedInOrder(rows)), limit)
  {
    hide Sharers, ShareOnce;
    EntitiesAreSharers(rows);
    hide SharedHoldings, ValueLess, Shared, Among, HoldersOf, ValuesIn, TotalOrder, Sorted, First, HoldersInTurn;
    var holders := GroupByValue(rows);
    ValueOrder();
    var keys := Iterate(ValueLess, holders.Keys);
    OrderedMeaning(ValueLess, holders.Keys);
    SharedIs(rows, holders);
    ghost var found: set<Value>, listed: seq<Value> := {}, [];
    r := DuplicateValues(0, 0, []);
    NoGroupYet(rows, keys, limit);
    for i := 0 to |keys|
      invariant found == Among(keys[..i], Shared(rows))
      invariant r.groups == |found| && r.entities == |SharedHoldings(rows, found)|
      invariant Sorted(ValueLess, listed) && (forall x :: x in listed <==> x in found)
      invariant r.sample == First(HoldersInTurn(rows, listed), limit)
    {
      var v := keys[i];
      AmongGrows(ValueLess, keys, i, Shared(rows));
      assert v in keys;
      if |holders[v]| > 1 {
        OneMoreGroup(rows, found, v);
        OneMoreListed(ValueLess, keys, i, Shared(rows), listed);
        HoldersOfMore(rows, listed, v);
        FirstOfTwo(HoldersInTurn(rows, listed), Ascending(HoldersOf(rows, v)), limit);
        r := NoteGroup(r, holders[v], limit);
        found, listed := found + {v}, listed + [v];
      }
    }
    AmongAll(keys, Shared(rows));
    OrderedIs(ValueLess, Shared(rows), listed);
  }

  method NoteGroup(r: DuplicateValues, group: set<EntityId>, limit: nat) returns (r': DuplicateValues)
    requires |r.sample| <= limit
    ensures r'.groups == r.groups + 1 && r'.entities == r.entities + |group|
    ensures r'.sample == First(r.sample + Ascending(group), limit)
  {
    var sample := TakeSample(r.sample, group, limit);
    r' := DuplicateValues(r.groups + 1, r.entities + |group|, sample);
  }

  lemma NoGroupYet(rows: seq<Datom>, keys: seq<Value>, limit: nat)
    ensures SharedHoldings(rows, {}) == {} && Among(keys[..0], Shared(rows)) == {}
    ensures Sorted(ValueLess, []) && First(HoldersInTurn(rows, []), limit) == []
  {}

  lemma SharedIs(rows: seq<Datom>, holders: map<Value, set<EntityId>>)
    requires holders.Keys == ValuesIn(rows) && forall v :: v in holders ==> holders[v] == HoldersOf(rows, v)
    ensures Shared(rows) <= holders.Keys && forall v :: v in holders ==> (v in Shared(rows) <==> |holders[v]| > 1)
  {}

  // ---------------------------------------------------------------------
  // Are the entities counted the entities involved?
  // ---------------------------------------------------------------------

  /** The entities that hold some shared value. */
  function Sharers(rows: seq<Datom>): set<EntityId> { set d | d in rows && d.v in Shared(rows) :: d.e }

  /** No entity holds two shared values. */
  ghost predicate ShareOnce(rows: seq<Datom>) {
    forall d, c :: d in rows && c in rows && d.v in Shared(rows) && c.v in Shared(rows) && d.e == c.e ==> d.v == c.v
  }

  ghost predicate ApartByEntity(pairs: set<(Value, EntityId)>) {
    forall p, q :: p in pairs && q in pairs && p.1 == q.1 ==> p == q
  }

  /** Pairs are as many as their entities exactly when no two pairs have one entity. */
  lemma {:induction false} EntitiesOfPairs(pairs: set<(Value, EntityId)>)
    ensures |set p | p in pairs :: p.1| <= |pairs|
    ensures |set p | p in pairs :: p.1| == |pairs| <==> ApartByEntity(pairs)
    decreases pairs
  {
    if pairs != {} {
      var p :| p in pairs;
      var rest := pairs - {p};
      EntitiesOfPairs(rest);
      var all, few := set q | q in pairs :: q.1, set q | q in rest :: q.1;
      assert pairs == rest + {p};
      assert all == few + {p.1};
      if p.1 in few {
        var q :| q in rest && q.1 == p.1;
        assert q in pairs && q != p;
      }
    }
  }

  /** The count of entities is never below the entities involved, and is theirs exactly when none shares twice. */
  lemma EntitiesAreSharers(rows: seq<Datom>)
    ensures |Sharers(rows)| <= |SharedHoldings(rows, Shared(rows))|
    ensures |SharedHoldings(rows, Shared(rows))| == |Sharers(rows)| <==> ShareOnce(rows)
  {
    hide Shared;
    var pairs := SharedHoldings(rows, Shared(rows));
    var entities := set p | p in pairs :: p.1;
    forall e ensures e in Sharers(rows) <==> e in entities {
      if e in Sharers(rows) {
        var d :| d in rows && d.v in Shared(rows) && d.e == e;
        assert (d.v, d.e) in pairs;
      }
    }
    assert entities == Sharers(rows);
    EntitiesOfPairs(pairs);
    if ShareOnce(rows) {
      assert ApartByEntity(pairs);
    } else {
      var d, c :| d in rows && c in rows && d.v in Shared(rows) && c.v in Shared(rows) && d.e == c.e && d.v != c.v;
      assert (d.v, d.e) in pairs && (c.v, c.e) in pairs;
    }
  }

  /** Two entities that each hold both of two values. */
  function Square(a: EntityId, tx: EntityId, e: EntityId, f: EntityId, v: Value, w: Value): seq<Datom> {
    [Datom(e, a, v, tx, true), Datom(e, a, w, tx, true), Datom(f, a, v, tx, true), Datom(f, a, w, tx, true)]
  }

  lemma SquareMembers(a: EntityId, tx: EntityId, e: EntityId, f: EntityId, v: Value, w: Value, d: Datom)
    ensures d in Square(a, tx, e, f, v, w)
            <==> d.a == a && d.tx == tx && d.added && d.e in {e, f} && d.v in {v, w}
  {
    var rows := Square(a, tx, e, f, v, w);
    assert rows[0] in rows && rows[1] in rows && rows[2] in rows && rows[3] in rows;
  }

  lemma SquareHolders(a: EntityId, tx: EntityId, e: EntityId, f: EntityId, v: Value, w: Value, x: Value)
    requires x in {v, w}
    ensures HoldersOf(Square(a, tx, e, f, v, w), x) == {e, f}
  {
    hide Square;
    var rows := Square(a, tx, e, f, v, w);
    forall d ensures d in rows <==> d.a == a && d.tx == tx && d.added && d.e in {e, f} && d.v in {v, w} {
      SquareMembers(a, tx, e, f, v, w, d);
    }
    assert Datom(e, a, x, tx, true) in rows && Datom(f, a, x, tx, true) in rows;
  }

  /** Two entities that share two values are counted as four. */
  lemma SharersCountedTwice(a: EntityId, tx: EntityId, e: EntityId, f: EntityId, v: Value, w: Value)
    requires e != f && v != w
    ensures var rows := Square(a, tx, e, f, v, w);
            |SharedHoldings(rows, Shared(rows))| == 4 && |Sharers(rows)| == 2
  {
    hide Square, HoldersOf;
    var rows := Square(a, tx, e, f, v, w);
    SquareHolders(a, tx, e, f, v, w, v); SquareHolders(a, tx, e, f, v, w, w);
    forall d ensures d in rows <==> d.a == a && d.tx == tx && d.added && d.e in {e, f} && d.v in {v, w} {
      SquareMembers(a, tx, e, f, v, w, d);
    }
    var ev, ew := Datom(e, a, v, tx, true), Datom(e, a, w, tx, true);
    var fv, fw := Datom(f, a, v, tx, true), Datom(f, a, w, tx, true);
    assert ev in rows && ew in rows && fv in rows && fw in rows;
    assert |{e, f}| == 2;
    assert Shared(rows) == {v, w};
    assert SharedHoldings(rows, {v, w}) == {(v, e), (w, e), (v, f), (w, f)};
    assert Sharers(rows) == {e, f};
  }

  /** Where cardinality one holds already, the count is the entities involved. */
  lemma CardinalityOneSharesOnce(rows: seq<Datom>)
    requires |Conflicted(rows)| == 0
    ensures ShareOnce(rows)
  {
    forall d, c | d in rows && c in rows && d.e == c.e ensures d.v == c.v {
      MoreThanOne(HeldBy(rows, d.e), d);
      assert d.e !in Conflicted(rows) && c in HeldBy(rows, d.e);
    }
  }

  // ---------------------------------------------------------------------
  // What emptiness means
  // ---------------------------------------------------------------------

  ghost predicate CardinalityOne(live: LiveSet, a: EntityId) {
    forall f, g :: f in live && g in live && f.a == a && g.a == a && f.e == g.e ==> f.v == g.v
  }

  ghost predicate UniqueIn(live: LiveSet, a: EntityId) {
    forall f, g :: f in live && g in live && f.a == a && g.a == a && f.v == g.v ==> f.e == g.e
  }

  ghost predicate RowsOf(rows: seq<Datom>, live: LiveSet, a: EntityId) {
    forall d :: d in rows <==> d.a == a && d.Eav() in live && live[d.Eav()] == d
  }

  lemma MoreThanOne<T>(s: set<T>, x: T)
    requires x in s
    ensures |s| > 1 <==> exists y :: y in s && y != x
  {
    assert |s - {x}| == |s| - 1;
    if |s - {x}| > 0 {
      var y :| y in s - {x};
    }
  }

  /** No entity conflicts exactly when cardinality one already holds. */
  lemma NoConflicts(rows: seq<Datom>, live: LiveSet, a: EntityId)
    requires WellKeyed(live) && RowsOf(rows, live, a)
    ensures |Conflicted(rows)| == 0 <==> CardinalityOne(live, a)
  {
    if e :| e in Conflicted(rows) {
      var d :| d in rows && d.e == e;
      MoreThanOne(HeldBy(rows, e), d);
      var c :| c in HeldBy(rows, e) && c != d;
      assert d.Eav() in live && c.Eav() in live;
    }
    if !CardinalityOne(live, a) {
      var f, g :| f in live && g in live && f.a == a && g.a == a && f.e == g.e && f.v != g.v;
      assert live[f] in rows && live[g] in rows;
      MoreThanOne(HeldBy(rows, f.e), live[f]);
      assert live[g] in HeldBy(rows, f.e);
      assert f.e in Conflicted(rows);
    }
  }

  /** No value is shared exactly when uniqueness already holds. */
  lemma NoDuplicates(rows: seq<Datom>, live: LiveSet, a: EntityId)
    requires WellKeyed(live) && RowsOf(rows, live, a)
    ensures |Shared(rows)| == 0 <==> UniqueIn(live, a)
  {
    if v :| v in Shared(rows) {
      var d :| d in rows && d.v == v;
      MoreThanOne(HoldersOf(rows, v), d.e);
      var e :| e in HoldersOf(rows, v) && e != d.e;
      var c :| c in rows && c.v == v && c.e == e;
      assert d.Eav() in live && c.Eav() in live;
    }
    if !UniqueIn(live, a) {
      var f, g :| f in live && g in live && f.a == a && g.a == a && f.v == g.v && f.e != g.e;
      assert live[f] in rows && live[g] in rows;
      MoreThanOne(HoldersOf(rows, f.v), f.e);
      assert live[g].e in HoldersOf(rows, f.v);
      assert f.v in Shared(rows);
    }
  }

  /** The rows an impact scan reads from a live view are what these lemmas ask for. */
  lemma ScannedRows(schema: Schema, log: seq<Datom>, view: View, a: EntityId)
    requires !view.History?
    ensures var rows := RowsFor(ViewIndexes(schema, log, view), a);
            RowsOf(rows, Selected(log, view), a) && Distinct(rows)
  {
    hide RowsFor;
    SelectedIsWellKeyed(log, view);
    RowsAreExact(schema, Selected(log, view), a);
    var rows := RowsFor(ViewIndexes(schema, log, view), a);
    forall i, j | 0 <= i < j < |rows| ensures rows[i] != rows[j] { ValueLessIsTotal(rows[i].v, rows[j].v); }
  }

  /** When the duplicate scan of a view comes back empty, `lookup` resolves every held value to its only holder. */
  lemma UniqueLookup(schema: Schema, log: seq<Datom>, view: View, f: Fact)
    requires !view.History? && f in Selected(log, view)
    requires |Shared(RowsFor(ViewIndexes(schema, log, view), f.a))| == 0
    ensures Lookup(schema, ViewIndexes(schema, log, view), f.a, f.v) == Some(f.e)
  {
    hide Lookup, RowsFor, ViewIndexes, Shared;
    ScannedRows(schema, log, view, f.a);
    SelectedIsWellKeyed(log, view);
    NoDuplicates(RowsFor(ViewIndexes(schema, log, view), f.a), Selected(log, view), f.a);
    LookupIsLeast(schema, log, view, f.a, f.v);
  }
}
