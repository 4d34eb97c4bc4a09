/** The four covering indexes of a view, built in full and maintained by increments. */
module Indexes {
  import opened Options
  import opened Bytes
  import opened Values
  import opened Datoms
  import opened Liveness
  import opened Schemas
  import opened Projection

  type Index = map<seq<byte>, Datom>

  datatype Indexes = Indexes(eavt: Index, aevt: Index, avet: Index, vaet: Index) {
    function At(order: IndexOrder): Index {
      match order
      case Eavt => eavt
      case Aevt => aevt
      case Avet => avet
      case Vaet => vaet
    }

    function With(order: IndexOrder, index: Index): Indexes {
      match order
      case Eavt => this.(eavt := index)
      case Aevt => this.(aevt := index)
      case Avet => this.(avet := index)
      case Vaet => this.(vaet := index)
    }
  }

  const ORDERS: seq<IndexOrder> := [Eavt, Aevt, Avet, Vaet]

  // ---------------------------------------------------------------------
  // Specification: the covered projection of a live set
  // ---------------------------------------------------------------------

  function KeyOf(order: IndexOrder): Fact -> seq<byte> { f => Components(order, f) }

  /** The fact a key stands for; a key of no fact stands for an arbitrary one. */
  ghost function FactAt(order: IndexOrder): seq<byte> -> Fact {
    k => if exists f :: Components(order, f) == k then (var f :| Components(order, f) == k; f)
        else Fact(0, 0, Bool(false))
  }

  function CoveredIn(schema: Schema, order: IndexOrder): Fact -> bool { f => Covered(schema, order, f) }

  lemma KeyOfInverts(order: IndexOrder)
    ensures forall f :: FactAt(order)(KeyOf(order)(f)) == f
  {
    forall f ensures FactAt(order)(KeyOf(order)(f)) == f {
      var g := FactAt(order)(Components(order, f));
      assert Components(order, g) == Components(order, f);
      ComponentOrder(order, f, g);
    }
  }

  /** One order's index over a live set: the covered facts, under their component keys. */
  ghost function Project(schema: Schema, order: IndexOrder, live: LiveSet): Index {
    KeyOfInverts(order);
    Rekey(KeyOf(order), FactAt(order), CoveredIn(schema, order), live)
  }

  ghost function ProjectAll(schema: Schema, live: LiveSet): Indexes {
    Indexes(Project(schema, Eavt, live), Project(schema, Aevt, live),
            Project(schema, Avet, live), Project(schema, Vaet, live))
  }

  ghost predicate TxFits(log: seq<Datom>) {
    forall i :: 0 <= i < |log| ==> log[i].tx < U63_LIMIT
  }

  function FullKeyOf(order: IndexOrder): Datom -> seq<byte> { d => Key(order, d) }

  ghost function DatomAt(order: IndexOrder): seq<byte> -> Datom {
    k => if exists d: Datom :: d.tx < U63_LIMIT && Key(order, d) == k
         then (var d: Datom :| d.tx < U63_LIMIT && Key(order, d) == k; d)
         else Datom(0, 0, Bool(false), 0, false)
  }

  /** A datom a history index shows: retained by the schema, covered by the order, its key intact. */
  function ShownIn(schema: Schema, order: IndexOrder): Datom -> bool {
    (d: Datom) => d.tx < U63_LIMIT && !OmitsHistory(schema, d.a) && Covered(schema, order, d.Eav())
  }

  lemma FullKeyInverts(order: IndexOrder, schema: Schema, m: map<Datom, Datom>)
    ensures Inverts(FullKeyOf(order), DatomAt(order), ShownIn(schema, order), m)
  {
    forall d | d in m && ShownIn(schema, order)(d)
      ensures DatomAt(order)(FullKeyOf(order)(d)) == d
    {
      var c := DatomAt(order)(Key(order, d));
      assert c.tx < U63_LIMIT && Key(order, c) == Key(order, d);
      KeyOrder(order, c, d);
    }
  }

  function Entries(log: seq<Datom>): map<Datom, Datom> { map d | d in log :: d }

  /** One order's history index: every retained datom, under its full key. */
  ghost function HistoryIndex(schema: Schema, order: IndexOrder, log: seq<Datom>): Index {
    FullKeyInverts(order, schema, Entries(log));
    Rekey(FullKeyOf(order), DatomAt(order), ShownIn(schema, order), Entries(log))
  }

  /** A history index holds exactly the datoms it shows, each under its own key. */
  lemma HistoryMembers(schema: Schema, order: IndexOrder, log: seq<Datom>)
    ensures var index := HistoryIndex(schema, order, log);
            && (forall k :: k in index ==>
                  index[k] in log && ShownIn(schema, order)(index[k]) && k == Key(order, index[k]))
            && (forall d :: d in log && ShownIn(schema, order)(d) ==>
                  Key(order, d) in index && index[Key(order, d)] == d)
  {
    hide Key, DatomAt, ShownIn;
    FullKeyInverts(order, schema, Entries(log));
    forall d ensures FullKeyOf(order)(d) == Key(order, d) {}
    forall d | d in log && ShownIn(schema, order)(d)
      ensures Key(order, d) in HistoryIndex(schema, order, log) && HistoryIndex(schema, order, log)[Key(order, d)] == d
    {
      RekeyHolds(FullKeyOf(order), DatomAt(order), ShownIn(schema, order), Entries(log), d);
    }
  }

  ghost function HistoryAll(schema: Schema, log: seq<Datom>): Indexes {
    Indexes(HistoryIndex(schema, Eavt, log), HistoryIndex(schema, Aevt, log),
            HistoryIndex(schema, Avet, log), HistoryIndex(schema, Vaet, log))
  }

  /** What the indexes of a view must be. */
  ghost function ViewIndexes(schema: Schema, log: seq<Datom>, view: View): Indexes {
    if view.History? then HistoryAll(schema, log) else ProjectAll(schema, Selected(log, view))
  }

  // ---------------------------------------------------------------------
  // One datom at a time
  // ---------------------------------------------------------------------

  /** How one recorded datom changes one order's index. */
  function Touch(schema: Schema, order: IndexOrder, index: Index, d: Datom): Index {
    if !Covered(schema, order, d.Eav()) then index
    else if d.added then index[Components(order, d.Eav()) := d]
    else index - {Components(order, d.Eav())}
  }

  /** Touching an index is recording the datom in the live set it projects. */
  lemma TouchIsRecord(schema: Schema, order: IndexOrder, live: LiveSet, d: Datom)
    ensures Touch(schema, order, Project(schema, order, live), d) == Project(schema, order, Record(live, d))
  {
    KeyOfInverts(order);
    var f := d.Eav();
    assert Components(order, f) == KeyOf(order)(f) && Covered(schema, order, f) == CoveredIn(schema, order)(f);
    if d.added {
      RekeyPut(KeyOf(order), FactAt(order), CoveredIn(schema, order), live, f, d);
    } else {
      RekeyRemove(KeyOf(order), FactAt(order), CoveredIn(schema, order), live, f);
    }
  }

  /** The datom's effect on all four orders. */
  function TouchAll(schema: Schema, ix: Indexes, d: Datom): Indexes {
    Indexes(Touch(schema, Eavt, ix.eavt, d), Touch(schema, Aevt, ix.aevt, d),
            Touch(schema, Avet, ix.avet, d), Touch(schema, Vaet, ix.vaet, d))
  }

  lemma TouchAllIsRecord(schema: Schema, live: LiveSet, d: Datom)
    ensures TouchAll(schema, ProjectAll(schema, live), d) == ProjectAll(schema, Record(live, d))
  {
    TouchIsRecord(schema, Eavt, live, d);
    TouchIsRecord(schema, Aevt, live, d);
    TouchIsRecord(schema, Avet, live, d);
    TouchIsRecord(schema, Vaet, live, d);
  }

  // ---------------------------------------------------------------------
  // Incremental maintenance
  // ---------------------------------------------------------------------

  /** `insert_datom` in a current view. */
  method InsertDatom(indexes: Indexes, d: Datom, schema: Schema) returns (r: Indexes)
    requires d.added
    ensures r == TouchAll(schema, indexes, d)
  {
    r := indexes;
    for i := 0 to 4
      invariant forall j :: 0 <= j < 4 ==>
        r.At(ORDERS[j]) == if j < i then Touch(schema, ORDERS[j], indexes.At(ORDERS[j]), d) else indexes.At(ORDERS[j])
    {
      var order := ORDERS[i];
      if Covered(schema, order, d.Eav()) {
        r := r.With(order, r.At(order)[Components(order, d.Eav()) := d]);
      }
    }
    assert r.At(ORDERS[0]) == r.eavt && r.At(ORDERS[1]) == r.aevt && r.At(ORDERS[2]) == r.avet
        && r.At(ORDERS[3]) == r.vaet;
  }

  /** The retraction branch of `apply_current`. */
  method RemoveDatom(indexes: Indexes, d: Datom, schema: Schema) returns (r: Indexes)
    requires !d.added
    ensures r == TouchAll(schema, indexes, d)
  {
    r := indexes;
    for i := 0 to 4
      invariant forall j :: 0 <= j < 4 ==>
        r.At(ORDERS[j]) == if j < i then Touch(schema, ORDERS[j], indexes.At(ORDERS[j]), d) else indexes.At(ORDERS[j])
    {
      var order := ORDERS[i];
      if Covered(schema, order, d.Eav()) {
        r := r.With(order, r.At(order) - {Components(order, d.Eav())});
      }
    }
    assert r.At(ORDERS[0]) == r.eavt && r.At(ORDERS[1]) == r.aevt && r.At(ORDERS[2]) == r.avet
        && r.At(ORDERS[3]) == r.vaet;
  }

  /** A run of recorded datoms, one effect after another. */
  function TouchEach(schema: Schema, ix: Indexes, datoms: seq<Datom>): Indexes {
    if datoms == [] then ix
    else TouchAll(schema, TouchEach(schema, ix, datoms[..|datoms| - 1]), datoms[|datoms| - 1])
  }

  /** Extending correct indexes by recorded datoms gives the correct indexes of the longer log. */
  lemma {:induction false} TouchEachIsReplay(schema: Schema, live: LiveSet, datoms: seq<Datom>)
    ensures TouchEach(schema, ProjectAll(schema, live), datoms) == ProjectAll(schema, Replay(live, datoms))
    decreases |datoms|
  {
    hide Project, Touch;
    if datoms != [] {
      TouchEachIsReplay(schema, live, datoms[..|datoms| - 1]);
      TouchAllIsRecord(schema, Replay(live, datoms[..|datoms| - 1]), datoms[|datoms| - 1]);
    }
  }

  /** `apply_current`. */
  method ApplyCurrent(indexes: Indexes, datoms: seq<Datom>, schema: Schema) returns (r: Indexes)
    ensures r == TouchEach(schema, indexes, datoms)
  {
    r := indexes;
    for i := 0 to |datoms|
      invariant r == TouchEach(schema, indexes, datoms[..i])
    {
      assert datoms[..i + 1][..i] == datoms[..i];
      if datoms[i].added {
        r := InsertDatom(r, datoms[i], schema);
      } else {
        r := RemoveDatom(r, datoms[i], schema);
      }
    }
    assert datoms[..|datoms|] == datoms;
  }

  // ---------------------------------------------------------------------
  // Building from the log
  // ---------------------------------------------------------------------

  /** The part of the log a cutoff leaves. */
  function Cut(log: seq<Datom>, cutoff: Option<nat>): seq<Datom> {
    if cutoff.Some? then UpTo(log, cutoff.value) else log
  }

  lemma CutGrows(log: seq<Datom>, i: nat, cutoff: Option<nat>)
    requires i < |log|
    ensures Cut(log[..i + 1], cutoff)
            == Cut(log[..i], cutoff) + if cutoff.Some? && log[i].T() > cutoff.value then [] else [log[i]]
  {
    assert log[..i + 1][..i] == log[..i];
  }

  lemma LiveGrows(log: seq<Datom>, d: Datom)
    ensures Live(log + [d]) == Record(Live(log), d)
  {
    assert (log + [d])[..|log|] == log;
  }

  /** The fold that decides liveness, in EAVT alone. */
  method FoldEavt(schema: Schema, log: seq<Datom>, cutoff: Option<nat>) returns (live: Index)
    ensures live == Project(schema, Eavt, Live(Cut(log, cutoff)))
  {
    live := map[];
    ghost var seen: seq<Datom> := [];
    assert live == Project(schema, Eavt, Live([])) && Cut(log[..0], cutoff) == [];
    hide Project, Live, Cut, Touch, Record;
    for i := 0 to |log|
      invariant seen == Cut(log[..i], cutoff)
      invariant live == Project(schema, Eavt, Live(seen))
    {
      CutGrows(log, i, cutoff);
      if cutoff.Some? && log[i].T() > cutoff.value { continue; }
      TouchIsRecord(schema, Eavt, Live(seen), log[i]);
      LiveGrows(seen, log[i]);
      seen := seen + [log[i]];
      live := TouchIndex(schema, Eavt, live, log[i]);
    }
    assert log[..|log|] == log;
  }

  /** One insertion or removal in one order, where the order covers the fact. */
  method TouchIndex(schema: Schema, order: IndexOrder, index: Index, d: Datom) returns (r: Index)
    ensures r == Touch(schema, order, index, d)
  {
    r := index;
    if Covered(schema, order, d.Eav()) {
      var key := Components(order, d.Eav());
      if d.added {
        r := r[key := d];
      } else {
        r := r - {key};
      }
    }
  }

  function LaterThan(t: nat): Datom -> bool { (d: Datom) => d.T() > t }

  /** Filtering the folded index by transaction filters the live set. */
  lemma FilterIsAddedAfter(schema: Schema, live: LiveSet, index: Index, t: nat)
    requires index == Project(schema, Eavt, live)
    ensures (map k | k in index && index[k].T() > t :: index[k]) == Project(schema, Eavt, AddedAfter(live, t))
  {
    KeyOfInverts(Eavt);
    var kept := map k | k in index && index[k].T() > t :: index[k];
    assert forall d :: LaterThan(t)(d) <==> d.T() > t;
    RekeyFilter(KeyOf(Eavt), FactAt(Eavt), CoveredIn(schema, Eavt), live, AddedAfter(live, t), kept, LaterThan(t));
  }

  /** The part of a live set whose EAVT keys are not left to visit. */
  ghost function Visited(live: LiveSet, rest: set<seq<byte>>): LiveSet {
    map f | f in live && KeyOf(Eavt)(f) !in rest :: live[f]
  }

  lemma VisitOne(live: LiveSet, rest: set<seq<byte>>, key: seq<byte>, f: Fact)
    requires WellKeyed(live) && f in live && key == KeyOf(Eavt)(f)
    ensures Visited(live, rest - {key}) == Record(Visited(live, rest), live[f])
  {
    hide KeyOf, FactAt;
    KeyOfInverts(Eavt);
    assert FactAt(Eavt)(key) == f;
    forall g | g in live ensures KeyOf(Eavt)(g) == key <==> g == f {
      assert FactAt(Eavt)(KeyOf(Eavt)(g)) == g;
    }
  }

  lemma VisitTouches(schema: Schema, order: IndexOrder, live: LiveSet, rest: set<seq<byte>>, key: seq<byte>, d: Datom)
    requires WellKeyed(live)
    requires key in Project(schema, Eavt, live) && d == Project(schema, Eavt, live)[key]
    ensures d.added
    ensures Touch(schema, order, Project(schema, order, Visited(live, rest)), d)
            == Project(schema, order, Visited(live, rest - {key}))
  {
    ProjectedKeys(schema, live);
    VisitOne(live, rest, key, FactAt(Eavt)(key));
    TouchIsRecord(schema, order, Visited(live, rest), d);
  }

  lemma VisitEnds(schema: Schema, live: LiveSet)
    ensures Visited(live, Project(schema, Eavt, live).Keys) == map[]
    ensures Visited(live, {}) == live
  {
    hide Project, KeyOf, FactAt;
    ProjectedKeys(schema, live);
  }

  lemma ProjectNothing(schema: Schema, order: IndexOrder)
    ensures Project(schema, order, map[]) == map[]
  {
    KeyOfInverts(order);
  }

  /** Projecting one of the other three orders from the folded live set. */
  method ProjectOrder(schema: Schema, order: IndexOrder, eavt: Index, ghost live: LiveSet) returns (index: Index)
    requires WellKeyed(live) && eavt == Project(schema, Eavt, live)
    ensures index == Project(schema, order, live)
  {
    hide *;
    index := map[];
    var rest := eavt.Keys;
    VisitEnds(schema, live);
    ProjectNothing(schema, order);
    while rest != {}
      invariant rest <= eavt.Keys
      invariant index == Project(schema, order, Visited(live, rest))
    {
      var key :| key in rest;
      VisitTouches(schema, order, live, rest, key, eavt[key]);
      index := TouchIndex(schema, order, index, eavt[key]);
      rest := rest - {key};
    }
  }

  lemma ProjectedKeys(schema: Schema, live: LiveSet)
    ensures forall f :: f in live ==> KeyOf(Eavt)(f) in Project(schema, Eavt, live)
    ensures forall k :: k in Project(schema, Eavt, live) ==>
              var f := FactAt(Eavt)(k);
              f in live && KeyOf(Eavt)(f) == k && Project(schema, Eavt, live)[k] == live[f]
  {
    KeyOfInverts(Eavt);
    forall f | f in live ensures KeyOf(Eavt)(f) in Project(schema, Eavt, live) {
      RekeyHolds(KeyOf(Eavt), FactAt(Eavt), CoveredIn(schema, Eavt), live, f);
    }
  }

  lemma HistoryGrows(schema: Schema, order: IndexOrder, log: seq<Datom>, d: Datom)
    requires d.tx < U63_LIMIT
    ensures HistoryIndex(schema, order, log + [d])
            == if !OmitsHistory(schema, d.a) && Covered(schema, order, d.Eav())
               then HistoryIndex(schema, order, log)[Key(order, d) := d]
               else HistoryIndex(schema, order, log)
  {
    assert Entries(log + [d]) == Entries(log)[d := d];
    FullKeyInverts(order, schema, Entries(log + [d]));
    RekeyPut(FullKeyOf(order), DatomAt(order), ShownIn(schema, order), Entries(log), d, d);
  }

  /** The history branch of `Db::indexes`, one order at a time. */
  method BuildHistory(schema: Schema, log: seq<Datom>, order: IndexOrder) returns (index: Index)
    requires TxFits(log)
    ensures index == HistoryIndex(schema, order, log)
  {
    index := map[];
    assert index == HistoryIndex(schema, order, []);
    for i := 0 to |log|
      invariant index == HistoryIndex(schema, order, log[..i])
    {
      var d := log[i];
      HistoryGrows(schema, order, log[..i], d);
      assert log[..i + 1] == log[..i] + [d];
      if OmitsHistory(schema, d.a) { continue; }
      if Covered(schema, order, d.Eav()) { index := index[Key(order, d) := d]; }
    }
    assert log[..|log|] == log;
  }

  /** `Db::indexes` on a cold value: the loops over the log build exactly what the view declares. */
  method BuildIndexes(schema: Schema, log: seq<Datom>, view: View) returns (r: Indexes)
    requires TxFits(log)
    ensures r == ViewIndexes(schema, log, view)
  {
    hide Project, HistoryIndex, UpTo;
    if view.History? {
      var e := BuildHistory(schema, log, Eavt);
      var a := BuildHistory(schema, log, Aevt);
      var v := BuildHistory(schema, log, Avet);
      var b := BuildHistory(schema, log, Vaet);
      return Indexes(e, a, v, b);
    }
    var live := FoldEavt(schema, log, if view.AsOf? then Some(view.t) else None);
    ghost var facts := Live(if view.AsOf? then UpTo(log, view.t) else log);
    ReplayIsWellKeyed(map[], if view.AsOf? then UpTo(log, view.t) else log);
    if view.Since? {
      FilterIsAddedAfter(schema, facts, live, view.floor);
      live := map k | k in live && live[k].T() > view.floor :: live[k];
    }
    var aevt := ProjectOrder(schema, Aevt, live, Selected(log, view));
    var avet := ProjectOrder(schema, Avet, live, Selected(log, view));
    var vaet := ProjectOrder(schema, Vaet, live, Selected(log, view));
    r := Indexes(live, aevt, avet, vaet);
  }
}
