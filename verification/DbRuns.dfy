/**
 * Database values and the lazily filled index caches they share, as a state machine.
 *
 * A value never changes, but its indexes live in a write-once cell that clones and views may share.
 * A run opens values, applies transactions, takes views, attaches names and reads, in any order.
 */
module DbRuns {
  import opened Options
  import opened Bytes
  import opened Values
  import opened Datoms
  import opened Liveness
  import opened Schemas
  import opened SchemaDatoms
  import opened Indexes

  const FIRST_USER_ID: nat := 1000

  datatype Db = Db(basisT: nat, nextUser: nat, schema: Schema, names: map<nat, string>,
                   recorded: seq<Datom>, view: View, cell: nat)

  /** Every value made so far, and the content of every cell. */
  datatype World = World(dbs: seq<Db>, cells: seq<Option<Indexes>>)

  /** The engine's own attributes, as installed into every schema. */
  type Engine = map<EntityId, Attribute>

  function Install(engine: Engine, schema: Schema): Schema { schema.(attrs := schema.attrs + engine) }

  /** `Db::default`: nothing recorded, nothing installed. */
  const EMPTY: Db := Db(0, FIRST_USER_ID, Schema(map[], map[]), map[], [], Current, 0)

  // ---------------------------------------------------------------------
  // Steps
  // ---------------------------------------------------------------------

  datatype Step =
    | Default
    | Create(schema: Schema, names: map<nat, string>)
    | Reopen(basisT: nat, nextUser: nat, schema: Schema, names: map<nat, string>, datoms: seq<Datom>)
    | Apply(i: nat, t: nat, datoms: seq<Datom>)
    | Look(i: nat, view: View)
    | Read(i: nat)
    | Name(i: nat, names: map<nat, string>)

  /** One past the highest user entity recorded, starting from a mark. */
  function NextUser(mark: nat, datoms: seq<Datom>): nat {
    if datoms == [] then mark else
    var before, e := NextUser(mark, datoms[..|datoms| - 1]), datoms[|datoms| - 1].e;
    if PartitionOf(e) == USER_PARTITION && SequenceOf(e) + 1 > before then SequenceOf(e) + 1 else before
  }

  function Max(x: nat, y: nat): nat { if x < y then y else x }

  /** `fold_class`: the view whose fold materializes this one. */
  function FoldClass(db: Db, view: View): View {
    if view.AsOf? && view.t >= db.basisT then Current
    else if view == Since(0) then Current
    else view
  }

  function Opened(w: World, db: Db, content: Option<Indexes>): World {
    World(w.dbs + [db.(cell := |w.cells|)], w.cells + [content])
  }

  /** `apply_transaction`: extend the parent's indexes when it has them and the schema did not change. */
  ghost function Applied(w: World, i: nat, t: nat, datoms: seq<Datom>): World
    requires i < |w.dbs| && w.dbs[i].cell < |w.cells|
  {
    var db := w.dbs[i];
    var held := w.cells[db.cell];
    var next := db.(basisT := t, nextUser := NextUser(db.nextUser, datoms), recorded := db.recorded + datoms,
                    schema := NextSchema(db.schema, db.names, t, datoms));
    Opened(w, next,
           if held.Some? && !ChangesSchema(datoms) then Some(TouchEach(db.schema, held.value, datoms)) else None)
  }

  /** `with_view`: views of one fold class share the cell; otherwise the view gets its own. */
  function Looked(w: World, i: nat, view: View): World
    requires i < |w.dbs| && w.dbs[i].cell < |w.cells|
  {
    var db := w.dbs[i];
    if view == db.view || FoldClass(db, view) == FoldClass(db, db.view)
    then w.(dbs := w.dbs + [db.(view := view)])
    else Opened(w, db.(view := view), None)
  }

  /** What the indexes of a value must be. */
  ghost function Meaning(db: Db): Indexes { ViewIndexes(db.schema, db.recorded, db.view) }

  ghost function Do(engine: Engine, w: World, step: Step): World
    requires StepOk(engine, w, step)
  {
    match step
    case Default => Opened(w, EMPTY, None)
    case Create(schema, names) =>
      Opened(w, Db(0, FIRST_USER_ID, Install(engine, schema), names, [], Current, 0), None)
    case Reopen(basisT, nextUser, schema, names, datoms) =>
      Opened(w, Db(basisT, NextUser(Max(nextUser, FIRST_USER_ID), datoms), Install(engine, schema), names, datoms,
                   Current, 0), None)
    case Apply(i, t, datoms) => Applied(w, i, t, datoms)
    case Look(i, view) => Looked(w, i, view)
    case Read(i) =>
      var c := w.dbs[i].cell;
      if w.cells[c].Some? then w else w.(cells := w.cells[c := Some(Meaning(w.dbs[i]))])
    case Name(i, names) =>
      w.(dbs := w.dbs + [w.dbs[i].(schema := Install(engine, w.dbs[i].schema), names := names)])
  }

  /**
   * What a caller guarantees: transactions go to a current value, in increasing t from one, and their datoms carry
   * that t.
   */
  ghost predicate StepOk(engine: Engine, w: World, step: Step) {
    match step
    case Default => true
    case Create(_, _) => true
    case Reopen(basisT, _, _, _, datoms) =>
      TxFits(datoms) && forall d :: d in datoms ==> 1 <= d.T() <= basisT
    case Apply(i, t, datoms) =>
      && i < |w.dbs| && w.dbs[i].cell < |w.cells| && w.dbs[i].view.Current? && t > w.dbs[i].basisT
      && TxFits(datoms) && (forall d :: d in datoms ==> d.T() == t)
    case Look(i, _) => i < |w.dbs| && w.dbs[i].cell < |w.cells|
    case Read(i) => i < |w.dbs| && w.dbs[i].cell < |w.cells|
    case Name(i, _) => i < |w.dbs| && w.dbs[i].cell < |w.cells|
  }

  // ---------------------------------------------------------------------
  // Runs
  // ---------------------------------------------------------------------

  ghost predicate RunOk(engine: Engine, w: World, steps: seq<Step>)
    decreases |steps|
  {
    steps == [] || (StepOk(engine, w, steps[0]) && RunOk(engine, Do(engine, w, steps[0]), steps[1..]))
  }

  ghost function Run(engine: Engine, w: World, steps: seq<Step>): World
    requires RunOk(engine, w, steps)
    decreases |steps|
  {
    if steps == [] then w else Run(engine, Do(engine, w, steps[0]), steps[1..])
  }

  const NOTHING: World := World([], [])

  ghost predicate DbOk(db: Db) {
    && TxFits(db.recorded)
    && (forall d :: d in db.recorded ==> 1 <= d.T() <= db.basisT)
    && (forall d :: d in db.recorded && PartitionOf(d.e) == USER_PARTITION ==> SequenceOf(d.e) < db.nextUser)
  }

  /** A cell only ever holds what every value pointing at it means. */
  ghost predicate Inv(w: World) {
    && (forall i :: 0 <= i < |w.dbs| ==> DbOk(w.dbs[i]) && w.dbs[i].cell < |w.cells|)
    && (forall i, j :: 0 <= i < |w.dbs| && 0 <= j < |w.dbs| && w.dbs[i].cell == w.dbs[j].cell ==>
          Meaning(w.dbs[i]) == Meaning(w.dbs[j]))
    && (forall i :: 0 <= i < |w.dbs| && w.cells[w.dbs[i].cell].Some? ==>
          w.cells[w.dbs[i].cell].value == Meaning(w.dbs[i]))
  }

  // ---------------------------------------------------------------------
  // Lemmas
  // ---------------------------------------------------------------------

  lemma {:induction false} NextUserBounds(mark: nat, datoms: seq<Datom>)
    ensures NextUser(mark, datoms) >= mark
    ensures forall d :: d in datoms && PartitionOf(d.e) == USER_PARTITION ==> SequenceOf(d.e) < NextUser(mark, datoms)
    decreases |datoms|
  {
    if datoms != [] {
      var init := datoms[..|datoms| - 1];
      NextUserBounds(mark, init);
      forall d | d in datoms && PartitionOf(d.e) == USER_PARTITION
        ensures SequenceOf(d.e) < NextUser(mark, datoms)
      {
        assert d in init || d == datoms[|datoms| - 1];
      }
    }
  }

  /** The mark is no higher than it has to be: it did not move, or the highest user id is just below it. */
  lemma {:induction false} NextUserIsLeast(mark: nat, datoms: seq<Datom>)
    ensures || NextUser(mark, datoms) == mark
            || exists d :: d in datoms && PartitionOf(d.e) == USER_PARTITION
                 && SequenceOf(d.e) + 1 == NextUser(mark, datoms)
    decreases |datoms|
  {
    if datoms != [] {
      var init := datoms[..|datoms| - 1];
      NextUserIsLeast(mark, init);
      assert datoms[|datoms| - 1] in datoms && forall d :: d in init ==> d in datoms;
    }
  }

  /** The projections of a live set agree under two schemas exactly when its attributes have the same coverage. */
  lemma ProjectionAgrees(s: Schema, s': Schema, live: LiveSet)
    ensures ProjectAll(s, live) == ProjectAll(s', live)
            <==> forall f :: f in live ==> AvetCovered(s, f.a) == AvetCovered(s', f.a)
  {
    hide KeyOf, FactAt;
    if forall f :: f in live ==> AvetCovered(s, f.a) == AvetCovered(s', f.a) {
      ProjectSame(s, s', Eavt, live);
      ProjectSame(s, s', Aevt, live);
      ProjectSame(s, s', Avet, live);
      ProjectSame(s, s', Vaet, live);
    } else {
      var f :| f in live && AvetCovered(s, f.a) != AvetCovered(s', f.a);
      KeyOfInverts(Avet);
      var k := KeyOf(Avet)(f);
      assert FactAt(Avet)(k) == f;
      assert k in Project(s, Avet, live) <==> CoveredIn(s, Avet)(f);
      assert k in Project(s', Avet, live) <==> CoveredIn(s', Avet)(f);
    }
  }

  lemma ProjectSame(s: Schema, s': Schema, order: IndexOrder, live: LiveSet)
    requires forall f :: f in live ==> Covered(s, order, f) == Covered(s', order, f)
    ensures Project(s, order, live) == Project(s', order, live)
  {
    hide KeyOf, FactAt;
    KeyOfInverts(order);
  }

  // ---------------------------------------------------------------------
  // When two schemas read one value alike
  // ---------------------------------------------------------------------

  /** Two schemas keep and cover alike whatever a view shows. */
  ghost predicate SameShown(s: Schema, s': Schema, log: seq<Datom>, view: View) {
    if view.History? then
      forall d :: d in log ==>
        && OmitsHistory(s, d.a) == OmitsHistory(s', d.a)
        && (OmitsHistory(s, d.a) || AvetCovered(s, d.a) == AvetCovered(s', d.a))
    else forall f :: f in Selected(log, view) ==> AvetCovered(s, f.a) == AvetCovered(s', f.a)
  }

  lemma HistorySame(s: Schema, s': Schema, order: IndexOrder, log: seq<Datom>)
    requires SameShown(s, s', log, History)
    ensures HistoryIndex(s, order, log) == HistoryIndex(s', order, log)
  {
    hide FullKeyOf, DatomAt;
    FullKeyInverts(order, s, Entries(log));
    FullKeyInverts(order, s', Entries(log));
  }

  /** A datom one history index shows and another does not tells them apart. */
  lemma HistoryDiffers(s: Schema, s': Schema, order: IndexOrder, log: seq<Datom>, d: Datom)
    requires TxFits(log) && d in log && ShownIn(s, order)(d) && !ShownIn(s', order)(d)
    ensures HistoryIndex(s, order, log) != HistoryIndex(s', order, log)
  {
    hide Key, HistoryIndex, ShownIn;
    HistoryMembers(s, order, log);
    HistoryMembers(s', order, log);
    var k := Key(order, d);
    if k in HistoryIndex(s', order, log) {
      var c := HistoryIndex(s', order, log)[k];
      assert ShownIn(s', order)(c);
    }
  }

  lemma HistoryAgrees(s: Schema, s': Schema, log: seq<Datom>)
    requires TxFits(log)
    ensures HistoryAll(s, log) == HistoryAll(s', log) <==> SameShown(s, s', log, History)
  {
    hide HistoryIndex;
    if SameShown(s, s', log, History) {
      HistorySame(s, s', Eavt, log);
      HistorySame(s, s', Aevt, log);
      HistorySame(s, s', Avet, log);
      HistorySame(s, s', Vaet, log);
    } else {
      var d :| d in log && !(OmitsHistory(s, d.a) == OmitsHistory(s', d.a)
                             && (OmitsHistory(s, d.a) || AvetCovered(s, d.a) == AvetCovered(s', d.a)));
      var order := if OmitsHistory(s, d.a) != OmitsHistory(s', d.a) then Eavt else Avet;
      assert ShownIn(s, order)(d) != ShownIn(s', order)(d);
      if ShownIn(s, order)(d) {
        HistoryDiffers(s, s', order, log, d);
      } else {
        HistoryDiffers(s', s, order, log, d);
      }
    }
  }

  /** A view has the same indexes under two schemas exactly when they keep and cover alike whatever it shows. */
  lemma ViewAgrees(s: Schema, s': Schema, log: seq<Datom>, view: View)
    requires TxFits(log)
    ensures ViewIndexes(s, log, view) == ViewIndexes(s', log, view) <==> SameShown(s, s', log, view)
  {
    hide ProjectAll, HistoryAll;
    if view.History? {
      HistoryAgrees(s, s', log);
    } else {
      ProjectionAgrees(s, s', Selected(log, view));
    }
  }

  /** Views of one fold class select the same facts: nothing lies after the basis, nothing before one. */
  lemma FoldClassSelects(db: Db, view: View)
    requires DbOk(db)
    ensures ViewIndexes(db.schema, db.recorded, view) == ViewIndexes(db.schema, db.recorded, FoldClass(db, view))
  {
    hide ProjectAll, HistoryAll;
    if view.AsOf? && view.t >= db.basisT {
      UpToAll(db.recorded, view.t);
    } else if view == Since(0) {
      LiveComesFromLog(db.recorded);
      assert AddedAfter(Live(db.recorded), 0) == Live(db.recorded);
    }
  }

  /** When the incremental path is taken on a correct parent, it is right exactly when coverage did not move. */
  lemma IncrementalIsExact(schema: Schema, next: Schema, log: seq<Datom>, datoms: seq<Datom>)
    ensures TouchEach(schema, ViewIndexes(schema, log, Current), datoms) == ViewIndexes(next, log + datoms, Current)
            <==> SameShown(schema, next, log + datoms, Current)
  {
    hide ProjectAll, TouchEach, Replay;
    TouchEachIsReplay(schema, Live(log), datoms);
    ReplayAppends(map[], log, datoms);
    ProjectionAgrees(schema, next, Live(log + datoms));
  }

  // ---------------------------------------------------------------------
  // Preservation
  // ---------------------------------------------------------------------

  /** Adding a value that owns a fresh cell. */
  lemma OpenedKeeps(w: World, db: Db, content: Option<Indexes>)
    requires Inv(w) && DbOk(db)
    requires content.Some? ==> content.value == Meaning(db)
    ensures Inv(Opened(w, db, content))
  {
    hide ViewIndexes, TxFits;
    var w' := Opened(w, db, content);
    assert Meaning(db.(cell := |w.cells|)) == Meaning(db);
    assert DbOk(db.(cell := |w.cells|));
    forall i | 0 <= i < |w'.dbs| && i < |w.dbs|
      ensures w'.dbs[i] == w.dbs[i] && w'.cells[w.dbs[i].cell] == w.cells[w.dbs[i].cell]
    {}
  }

  /** Adding a value that shares the cell of one it agrees with. */
  lemma SharedKeeps(w: World, i: nat, db: Db)
    requires Inv(w) && i < |w.dbs| && DbOk(db)
    requires db.cell == w.dbs[i].cell && Meaning(db) == Meaning(w.dbs[i])
    ensures Inv(w.(dbs := w.dbs + [db]))
  {
    hide ViewIndexes, TxFits;
    var w' := w.(dbs := w.dbs + [db]);
    forall k | 0 <= k < |w'.dbs|
      ensures DbOk(w'.dbs[k]) && w'.dbs[k].cell < |w'.cells|
      ensures w'.dbs[k].cell == w.dbs[i].cell ==> Meaning(w'.dbs[k]) == Meaning(w.dbs[i])
      ensures k < |w.dbs| ==> w'.dbs[k] == w.dbs[k]
    {
      if k < |w.dbs| { assert w'.dbs[k] == w.dbs[k]; }
    }
  }

  /**
   * A step that cannot leave wrong indexes behind: naming that changes nothing the view shows, and a transaction that
   * rebuilds, or moves no live attribute's coverage.
   */
  ghost predicate Harmless(engine: Engine, w: World, step: Step)
    requires StepOk(engine, w, step)
  {
    match step
    case Apply(i, t, datoms) =>
      var db := w.dbs[i];
      (w.cells[db.cell].Some? && !ChangesSchema(datoms)) ==>
        SameShown(db.schema, NextSchema(db.schema, db.names, t, datoms), db.recorded + datoms, Current)
    case Name(i, _) =>
      var db := w.dbs[i];
      SameShown(db.schema, Install(engine, db.schema), db.recorded, db.view)
    case _ => true
  }

  /** Metadata written only on attributes, as the transactor enforces, makes a transaction harmless. */
  lemma TransactorIsHarmless(engine: Engine, w: World, i: nat, t: nat, datoms: seq<Datom>)
    requires StepOk(engine, w, Apply(i, t, datoms)) && MetadataOnAttributes(datoms)
    ensures Harmless(engine, w, Apply(i, t, datoms))
  {
    if !ChangesSchema(datoms) { NoSchemaChange(w.dbs[i].schema, w.dbs[i].names, t, datoms); }
  }

  /** Naming a value whose schema still carries the engine's attributes is harmless. */
  lemma InstalledIsHarmless(engine: Engine, w: World, i: nat, names: map<nat, string>)
    requires StepOk(engine, w, Name(i, names))
    requires forall a :: a in engine ==> a in w.dbs[i].schema.attrs && w.dbs[i].schema.attrs[a] == engine[a]
    ensures Harmless(engine, w, Name(i, names))
  {
    assert w.dbs[i].schema.attrs + engine == w.dbs[i].schema.attrs;
  }

  lemma ApplyIsExact(engine: Engine, w: World, i: nat, t: nat, datoms: seq<Datom>)
    requires Inv(w) && StepOk(engine, w, Apply(i, t, datoms))
    ensures Inv(Applied(w, i, t, datoms)) <==> Harmless(engine, w, Apply(i, t, datoms))
  {
    hide TouchEach, NextSchema, ViewIndexes, ChangesSchema, SameShown;
    var db := w.dbs[i];
    var held := w.cells[db.cell];
    var schema' := NextSchema(db.schema, db.names, t, datoms);
    var next := db.(basisT := t, nextUser := NextUser(db.nextUser, datoms), recorded := db.recorded + datoms,
                    schema := schema');
    NextUserBounds(db.nextUser, datoms);
    assert DbOk(next);
    if held.Some? && !ChangesSchema(datoms) {
      IncrementalIsExact(db.schema, schema', db.recorded, datoms);
      var content := TouchEach(db.schema, held.value, datoms);
      if Harmless(engine, w, Apply(i, t, datoms)) {
        OpenedKeeps(w, next, Some(content));
      } else {
        var w' := Applied(w, i, t, datoms);
        assert w'.dbs[|w.dbs|] == next.(cell := |w.cells|) && w'.cells[|w.cells|] == Some(content);
        assert Meaning(w'.dbs[|w.dbs|]) == ViewIndexes(schema', db.recorded + datoms, Current);
      }
    } else {
      OpenedKeeps(w, next, None);
    }
  }

  lemma NameIsExact(engine: Engine, w: World, i: nat, names: map<nat, string>)
    requires Inv(w) && StepOk(engine, w, Name(i, names))
    ensures Inv(Do(engine, w, Name(i, names))) <==> Harmless(engine, w, Name(i, names))
  {
    hide ViewIndexes, SameShown, TxFits;
    var db := w.dbs[i];
    var named := db.(schema := Install(engine, db.schema), names := names);
    ViewAgrees(db.schema, Install(engine, db.schema), db.recorded, db.view);
    if Harmless(engine, w, Name(i, names)) {
      SharedKeeps(w, i, named);
    } else {
      var w' := Do(engine, w, Name(i, names));
      assert w'.dbs[|w.dbs|] == named && w'.dbs[i] == db && named.cell == db.cell;
    }
  }

  lemma LookKeeps(w: World, i: nat, view: View)
    requires Inv(w) && i < |w.dbs|
    ensures Inv(Looked(w, i, view))
  {
    hide ViewIndexes;
    var db := w.dbs[i];
    FoldClassSelects(db, view);
    FoldClassSelects(db, db.view);
    if view == db.view || FoldClass(db, view) == FoldClass(db, db.view) {
      SharedKeeps(w, i, db.(view := view));
    } else {
      OpenedKeeps(w, db.(view := view), None);
    }
  }

  lemma ReadKeeps(engine: Engine, w: World, i: nat)
    requires Inv(w) && StepOk(engine, w, Read(i))
    ensures Inv(Do(engine, w, Read(i)))
  {
    hide ViewIndexes, TxFits;
    var w' := Do(engine, w, Read(i));
    forall k | 0 <= k < |w'.dbs| && w'.cells[w'.dbs[k].cell].Some?
      ensures w'.cells[w'.dbs[k].cell].value == Meaning(w'.dbs[k])
    {
      assert w'.dbs[k] == w.dbs[k];
    }
  }

  /** A step keeps every cell right for every value that points at it exactly when it is harmless. */
  lemma StepIsExact(engine: Engine, w: World, step: Step)
    requires Inv(w) && StepOk(engine, w, step)
    ensures Inv(Do(engine, w, step)) <==> Harmless(engine, w, step)
  {
    hide ViewIndexes, Applied, Looked, SameShown;
    match step {
      case Default => OpenedKeeps(w, EMPTY, None);
      case Create(schema, names) =>
        OpenedKeeps(w, Db(0, FIRST_USER_ID, Install(engine, schema), names, [], Current, 0), None);
      case Reopen(basisT, nextUser, schema, names, datoms) =>
        NextUserBounds(Max(nextUser, FIRST_USER_ID), datoms);
        OpenedKeeps(w, Db(basisT, NextUser(Max(nextUser, FIRST_USER_ID), datoms), Install(engine, schema), names,
                          datoms, Current, 0), None);
      case Apply(i, t, datoms) => ApplyIsExact(engine, w, i, t, datoms);
      case Look(i, view) => LookKeeps(w, i, view);
      case Read(i) => ReadKeeps(engine, w, i);
      case Name(i, names) => NameIsExact(engine, w, i, names);
    }
  }

  ghost predicate HarmlessRun(engine: Engine, w: World, steps: seq<Step>)
    requires RunOk(engine, w, steps)
    decreases |steps|
  {
    steps == [] || (Harmless(engine, w, steps[0]) && HarmlessRun(engine, Do(engine, w, steps[0]), steps[1..]))
  }

  /** Every state a run goes through keeps every cell right. */
  ghost predicate AlwaysRight(engine: Engine, w: World, steps: seq<Step>)
    requires RunOk(engine, w, steps)
    decreases |steps|
  {
    Inv(w) && (steps == [] || AlwaysRight(engine, Do(engine, w, steps[0]), steps[1..]))
  }

  lemma {:induction false} RunIsExact(engine: Engine, w: World, steps: seq<Step>)
    requires Inv(w) && RunOk(engine, w, steps)
    ensures AlwaysRight(engine, w, steps) <==> HarmlessRun(engine, w, steps)
    ensures HarmlessRun(engine, w, steps) ==> Inv(Run(engine, w, steps))
    decreases |steps|
  {
    hide Inv, Harmless, Do;
    if steps != [] {
      StepIsExact(engine, w, steps[0]);
      if Harmless(engine, w, steps[0]) { RunIsExact(engine, Do(engine, w, steps[0]), steps[1..]); }
    }
  }

  /**
   * After every run of harmless steps, whatever indexes a value carries (rebuilt, extended from a warm parent, or
   * shared with another view) are the covered projection its own schema, log and view select; and its allocator is
   * past every user id.
   */
  lemma ReachableIndexesAreRight(engine: Engine, steps: seq<Step>, i: nat)
    requires RunOk(engine, NOTHING, steps) && HarmlessRun(engine, NOTHING, steps)
    requires i < |Run(engine, NOTHING, steps).dbs|
    ensures var w := Run(engine, NOTHING, steps);
            var db := w.dbs[i];
            && db.cell < |w.cells|
            && (w.cells[db.cell].Some? ==> w.cells[db.cell].value == ViewIndexes(db.schema, db.recorded, db.view))
            && (forall d :: d in db.recorded && PartitionOf(d.e) == USER_PARTITION ==> SequenceOf(d.e) < db.nextUser)
  {
    RunIsExact(engine, NOTHING, steps);
  }

  // ---------------------------------------------------------------------
  // Steps that do harm
  // ---------------------------------------------------------------------

  /** A value carries indexes that are not its own. */
  ghost predicate Stale(w: World, i: nat) {
    && i < |w.dbs| && w.dbs[i].cell < |w.cells|
    && w.cells[w.dbs[i].cell].Some? && w.cells[w.dbs[i].cell].value != Meaning(w.dbs[i])
  }

  /** A harmful transaction leaves the value it makes with wrong indexes. */
  lemma ApplyGoesStale(engine: Engine, w: World, i: nat, t: nat, datoms: seq<Datom>)
    requires Inv(w) && StepOk(engine, w, Apply(i, t, datoms)) && !Harmless(engine, w, Apply(i, t, datoms))
    ensures Stale(Do(engine, w, Apply(i, t, datoms)), |w.dbs|)
  {
    hide ViewIndexes, SameShown, TxFits, TouchEach, NextSchema, ChangesSchema;
    var db, w' := w.dbs[i], Do(engine, w, Apply(i, t, datoms));
    var schema' := NextSchema(db.schema, db.names, t, datoms);
    IncrementalIsExact(db.schema, schema', db.recorded, datoms);
    assert Meaning(w'.dbs[|w.dbs|]) == ViewIndexes(schema', db.recorded + datoms, Current);
  }

  /** A harmful step leaves a value with wrong indexes, at once or after one read. */
  lemma HarmGoesStale(engine: Engine, w: World, step: Step)
    requires Inv(w) && StepOk(engine, w, step) && !Harmless(engine, w, step)
    ensures var w' := Do(engine, w, step);
            && |w.dbs| < |w'.dbs| && step.i < |w.dbs| && StepOk(engine, w', Read(step.i))
            && Stale(Do(engine, w', Read(step.i)), |w.dbs|)
  {
    hide ViewIndexes, SameShown, TxFits, TouchEach, NextSchema, ChangesSchema;
    var w' := Do(engine, w, step);
    var db := w.dbs[step.i];
    if step.Name? {
      ViewAgrees(db.schema, Install(engine, db.schema), db.recorded, db.view);
      assert w'.dbs[step.i] == db && w'.cells == w.cells;
    } else {
      ApplyGoesStale(engine, w, step.i, step.t, step.datoms);
      assert w'.dbs[step.i] == db && w'.cells[db.cell] == w.cells[db.cell];
    }
  }

  /** Naming keeps a value's indexes exactly when installing changes nothing its view shows. */
  lemma NamingIsExact(engine: Engine, db: Db)
    requires TxFits(db.recorded)
    ensures Meaning(db) == Meaning(db.(schema := Install(engine, db.schema)))
            <==> SameShown(db.schema, Install(engine, db.schema), db.recorded, db.view)
  {
    hide ViewIndexes, SameShown;
    ViewAgrees(db.schema, Install(engine, db.schema), db.recorded, db.view);
  }

  lemma OneLive(log: seq<Datom>, d: Datom)
    requires log == [d] && d.added
    ensures d.Eav() in Live(log)
  {
    assert log == [] + [d];
    LiveGrows([], d);
  }

  /**
   * A default value that recorded an instant, once named: reading the unnamed value leaves the named one with indexes
   * that lack the instant in AVET.
   */
  lemma NamingCanStale(engine: Engine, d: Datom)
    requires TX_INSTANT in engine && engine[TX_INSTANT].indexed
    requires d.a == TX_INSTANT && d.added && d.T() == 1 && d.tx < U63_LIMIT
    ensures var steps := [Default, Apply(0, 1, [d]), Name(1, map[]), Read(1)];
            RunOk(engine, NOTHING, steps) && Stale(Run(engine, NOTHING, steps), 2)
  {
    hide ViewIndexes, TouchEach, SequenceOf, PartitionOf, Inv;
    assert Inv(NOTHING) by { NothingIsRight(); }
    StepIsExact(engine, NOTHING, Default);
    var one := Do(engine, NOTHING, Default);
    var first := Apply(0, 1, [d]);
    assert MetadataOnAttributes([d]);
    assert one.dbs[0] == EMPTY;
    TransactorIsHarmless(engine, one, 0, 1, [d]);
    StepIsExact(engine, one, first);
    var two := Do(engine, one, first);
    assert two.dbs[1].recorded == [d] && two.dbs[1].view == Current && two.dbs[1].schema == EMPTY.schema;
    OneLive([d], d);
    assert d.Eav() in Selected([d], Current);
    HarmGoesStale(engine, two, Name(1, map[]));
    RunOfFour(engine, NOTHING, Default, first, Name(1, map[]), Read(1));
  }

  /** A value that used an entity of the user partition as an attribute, and was read. */
  lemma WarmUse(engine: Engine, schema: Schema, d: Datom) returns (w: World)
    requires PartitionOf(d.a) == USER_PARTITION && d.added && d.T() == 1 && d.tx < U63_LIMIT
    ensures var create, use := Create(schema, LONG_IDENTITY), Apply(0, 1, [d]);
            && StepOk(engine, NOTHING, create)
            && StepOk(engine, Do(engine, NOTHING, create), use)
            && StepOk(engine, Do(engine, Do(engine, NOTHING, create), use), Read(1))
            && w == Do(engine, Do(engine, Do(engine, NOTHING, create), use), Read(1))
    ensures Inv(w) && |w.dbs| == 2 && w.dbs[1].view.Current? && w.dbs[1].basisT == 1 && w.dbs[1].recorded == [d]
    ensures w.dbs[1].schema == Install(engine, schema) && w.dbs[1].names == LONG_IDENTITY
    ensures w.dbs[1].cell < |w.cells| && w.cells[w.dbs[1].cell].Some?
  {
    hide ViewIndexes, TouchEach, SequenceOf, PartitionOf, Inv, NextSchema;
    NothingIsRight();
    var create, use := Create(schema, LONG_IDENTITY), Apply(0, 1, [d]);
    StepIsExact(engine, NOTHING, create);
    var one := Do(engine, NOTHING, create);
    StepIsExact(engine, one, use);
    var two := Do(engine, one, use);
    UserAttribute(Install(engine, schema), LONG_IDENTITY, 1, d);
    StepIsExact(engine, two, Read(1));
    w := Do(engine, two, Read(1));
  }

  /**
   * An entity of the user partition, used as an attribute by a warm value and then declared unique: the transaction
   * reports no schema change, and the value it makes carries an AVET index without the older datom.
   */
  lemma UnreportedCanStale(engine: Engine, schema: Schema, d: Datom, tx: EntityId)
    requires PartitionOf(d.a) == USER_PARTITION && d.a !in Install(engine, schema).attrs
    requires d.added && d.T() == 1 && d.tx < U63_LIMIT && SequenceOf(tx) == 2 && tx < U63_LIMIT
    ensures var steps := [Create(schema, LONG_IDENTITY), Apply(0, 1, [d]), Read(1), Apply(1, 2, UniqueLong(d.a, tx))];
            RunOk(engine, NOTHING, steps) && Stale(Run(engine, NOTHING, steps), 2)
  {
    hide ViewIndexes, TouchEach, SequenceOf, PartitionOf, Inv, NextSchema, Do;
    var w := WarmUse(engine, schema, d);
    UnreportedCoverage(Install(engine, schema), 2, d.a, tx);
    StillLive(d, tx);
    ApplyGoesStale(engine, w, 1, 2, UniqueLong(d.a, tx));
    RunOfFour(engine, NOTHING, Create(schema, LONG_IDENTITY), Apply(0, 1, [d]), Read(1),
              Apply(1, 2, UniqueLong(d.a, tx)));
  }

  lemma UserAttribute(schema: Schema, names: map<nat, string>, t: nat, d: Datom)
    requires PartitionOf(d.a) == USER_PARTITION
    ensures !ChangesSchema([d]) && NextSchema(schema, names, t, [d]) == schema
  {}

  lemma StillLive(d: Datom, tx: EntityId)
    requires d.added && PartitionOf(d.a) == USER_PARTITION
    ensures d.Eav() in Selected([d] + UniqueLong(d.a, tx), Current)
  {
    var more := UniqueLong(d.a, tx);
    OneLive([d], d);
    LiveGrows([d], more[0]);
    LiveGrows([d] + [more[0]], more[1]);
    assert [d] + more == ([d] + [more[0]]) + [more[1]];
  }

  lemma NothingIsRight()
    ensures Inv(NOTHING)
  {}

  lemma RunOfFour(engine: Engine, w: World, a: Step, b: Step, c: Step, d: Step)
    requires StepOk(engine, w, a) && StepOk(engine, Do(engine, w, a), b)
    requires StepOk(engine, Do(engine, Do(engine, w, a), b), c)
    requires StepOk(engine, Do(engine, Do(engine, Do(engine, w, a), b), c), d)
    ensures RunOk(engine, w, [a, b, c, d])
    ensures Run(engine, w, [a, b, c, d]) == Do(engine, Do(engine, Do(engine, Do(engine, w, a), b), c), d)
  {
    hide Do, StepOk;
    assert [a, b, c, d][1..] == [b, c, d] && [b, c, d][1..] == [c, d] && [c, d][1..] == [d] && [d][1..] == [];
    var x := Do(engine, Do(engine, Do(engine, w, a), b), c);
    assert RunOk(engine, Do(engine, x, d), []) && Run(engine, Do(engine, x, d), []) == Do(engine, x, d);
    assert RunOk(engine, x, [d]) && Run(engine, x, [d]) == Do(engine, x, d);
    var y := Do(engine, Do(engine, w, a), b);
    assert RunOk(engine, y, [c, d]) && Run(engine, y, [c, d]) == Do(engine, x, d);
    var z := Do(engine, w, a);
    assert RunOk(engine, z, [b, c, d]) && Run(engine, z, [b, c, d]) == Do(engine, x, d);
  }
}
