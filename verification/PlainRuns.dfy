/**
 * The same runs without caches: every value is its basis, allocator, schema, names, log and view, and reading one
 * folds its log again.
 *
 * The machine with shared cells refines this one.
 */
module PlainRuns {
  import opened Options
  import opened Datoms
  import opened Liveness
  import opened Schemas
  import opened SchemaDatoms
  import opened Indexes
  import opened DbRuns

  datatype Plain = Plain(basisT: nat, nextUser: nat, schema: Schema, names: map<nat, string>, log: seq<Datom>,
                         view: View)

  /** What reading a value gives. */
  ghost function Answer(p: Plain): Indexes { ViewIndexes(p.schema, p.log, p.view) }

  ghost predicate PlainOk(values: seq<Plain>, step: Step) {
    (step.Apply? || step.Look? || step.Read? || step.Name?) ==> step.i < |values|
  }

  /** The value a step makes. */
  ghost function Made(engine: Engine, values: seq<Plain>, step: Step): Option<Plain>
    requires PlainOk(values, step)
  {
    match step
    case Default => Some(Plain(0, 1000, Schema(map[], map[]), map[], [], Current))
    case Create(schema, names) =>
      Some(Plain(0, 1000, Schema(schema.attrs + engine, schema.protection), names, [], Current))
    case Reopen(basisT, nextUser, schema, names, datoms) =>
      Some(Plain(basisT, NextUser(if nextUser < 1000 then 1000 else nextUser, datoms),
                 Schema(schema.attrs + engine, schema.protection), names, datoms, Current))
    case Apply(i, t, datoms) =>
      var p := values[i];
      Some(Plain(t, NextUser(p.nextUser, datoms), NextSchema(p.schema, p.names, t, datoms), p.names, p.log + datoms,
                 p.view))
    case Look(i, view) =>
      var p := values[i];
      Some(Plain(p.basisT, p.nextUser, p.schema, p.names, p.log, view))
    case Read(i) => None
    case Name(i, names) =>
      var p := values[i];
      Some(Plain(p.basisT, p.nextUser, Schema(p.schema.attrs + engine, p.schema.protection), names, p.log, p.view))
  }

  ghost function PlainDo(engine: Engine, values: seq<Plain>, step: Step): seq<Plain>
    requires PlainOk(values, step)
  {
    var made := Made(engine, values, step);
    if made.Some? then values + [made.value] else values
  }

  ghost predicate PlainRunOk(engine: Engine, values: seq<Plain>, steps: seq<Step>)
    decreases |steps|
  {
    steps == [] || (PlainOk(values, steps[0]) && PlainRunOk(engine, PlainDo(engine, values, steps[0]), steps[1..]))
  }

  ghost function PlainRun(engine: Engine, values: seq<Plain>, steps: seq<Step>): seq<Plain>
    requires PlainRunOk(engine, values, steps)
    decreases |steps|
  {
    if steps == [] then values else PlainRun(engine, PlainDo(engine, values, steps[0]), steps[1..])
  }

  // ---------------------------------------------------------------------
  // Refinement
  // ---------------------------------------------------------------------

  function Forget(db: Db): Plain { Plain(db.basisT, db.nextUser, db.schema, db.names, db.recorded, db.view) }

  function ForgetAll(w: World): seq<Plain> { seq(|w.dbs|, i requires 0 <= i < |w.dbs| => Forget(w.dbs[i])) }

  lemma ForgetMore(w: World, db: Db, cells: seq<Option<Indexes>>)
    ensures ForgetAll(World(w.dbs + [db], cells)) == ForgetAll(w) + [Forget(db)]
  {}

  /** One step of the cached machine makes the value the plain one makes, and leaves the others alone. */
  lemma StepRefines(engine: Engine, w: World, step: Step)
    requires StepOk(engine, w, step)
    ensures PlainOk(ForgetAll(w), step)
    ensures ForgetAll(Do(engine, w, step)) == PlainDo(engine, ForgetAll(w), step)
    ensures w.dbs <= Do(engine, w, step).dbs && |w.cells| <= |Do(engine, w, step).cells|
  {
    hide ForgetAll, NextUser, NextSchema, TouchEach, ViewIndexes, ChangesSchema, TxFits;
    ForgetEach(w);
    var w' := Do(engine, w, step);
    if step.Read? {
      SameValues(w, w');
    } else {
      ForgetMore(w, w'.dbs[|w.dbs|], w'.cells);
      assert w'.dbs == w.dbs + [w'.dbs[|w.dbs|]];
      if step.Create? || step.Reopen? || step.Name? {
        var s := if step.Name? then w.dbs[step.i].schema else step.schema;
        assert Install(engine, s) == Schema(s.attrs + engine, s.protection);
      }
    }
  }

  lemma ForgetEach(w: World)
    ensures |ForgetAll(w)| == |w.dbs| && forall i :: 0 <= i < |w.dbs| ==> ForgetAll(w)[i] == Forget(w.dbs[i])
  {}

  lemma SameValues(w: World, w': World)
    requires w'.dbs == w.dbs
    ensures ForgetAll(w') == ForgetAll(w)
  {}

  /** A run of the cached machine makes the values of the plain run of the same steps. */
  lemma {:induction false} RunRefines(engine: Engine, w: World, steps: seq<Step>)
    requires RunOk(engine, w, steps)
    ensures PlainRunOk(engine, ForgetAll(w), steps)
    ensures ForgetAll(Run(engine, w, steps)) == PlainRun(engine, ForgetAll(w), steps)
    decreases |steps|
  {
    hide Do, StepOk, PlainDo, PlainOk, ForgetAll;
    if steps != [] {
      StepRefines(engine, w, steps[0]);
      RunRefines(engine, Do(engine, w, steps[0]), steps[1..]);
    }
  }

  /** A value holds its own indexes, built. */
  ghost predicate Holds(w: World, i: nat, r: Indexes) {
    i < |w.dbs| && w.dbs[i].cell < |w.cells| && w.cells[w.dbs[i].cell] == Some(r)
  }

  /** Reading fills the cell with what the value means. */
  lemma ReadAnswers(engine: Engine, w: World, i: nat)
    requires Inv(w) && i < |w.dbs|
    ensures StepOk(engine, w, Read(i)) && Inv(Do(engine, w, Read(i)))
    ensures Holds(Do(engine, w, Read(i)), i, Answer(Forget(w.dbs[i])))
  {
    hide ViewIndexes;
    ReadKeeps(engine, w, i);
  }

  /**
   * After any harmless run, reading any of its values gives what the plain run's value gives: its schema and view
   * applied to its whole log.
   */
  lemma ReadsArePlain(engine: Engine, steps: seq<Step>, i: nat)
    requires RunOk(engine, NOTHING, steps) && HarmlessRun(engine, NOTHING, steps)
    requires i < |Run(engine, NOTHING, steps).dbs|
    ensures var w := Run(engine, NOTHING, steps);
            && StepOk(engine, w, Read(i))
            && PlainRunOk(engine, [], steps) && i < |PlainRun(engine, [], steps)|
            && Holds(Do(engine, w, Read(i)), i, Answer(PlainRun(engine, [], steps)[i]))
  {
    hide Do, StepOk, Inv, Answer, Holds, ForgetAll;
    NothingIsRight();
    RunIsExact(engine, NOTHING, steps);
    var w := Run(engine, NOTHING, steps);
    assert ForgetAll(NOTHING) == [] by { ForgetEach(NOTHING); }
    RunRefines(engine, NOTHING, steps);
    ForgetEach(w);
    ReadAnswers(engine, w, i);
  }

  // ---------------------------------------------------------------------
  // A view, and a transaction, then a read
  // ---------------------------------------------------------------------

  /** Everything about a value but its view and its cell. */
  predicate SameBut(db: Db, other: Db) {
    && db.basisT == other.basisT && db.nextUser == other.nextUser && db.schema == other.schema
    && db.names == other.names && db.recorded == other.recorded
  }

  /** Taking view `v` of value `i` and reading it gives what `v` selects of value `i`'s log under its schema. */
  lemma LookThenRead(engine: Engine, w: World, i: nat, v: View)
    requires Inv(w) && i < |w.dbs|
    ensures StepOk(engine, w, Look(i, v)) && StepOk(engine, Do(engine, w, Look(i, v)), Read(|w.dbs|))
    ensures var w' := Do(engine, Do(engine, w, Look(i, v)), Read(|w.dbs|));
            && |w'.dbs| == |w.dbs| + 1 && w'.dbs[..|w.dbs|] == w.dbs
            && w'.dbs[|w.dbs|].view == v && SameBut(w'.dbs[|w.dbs|], w.dbs[i])
            && Holds(w', |w.dbs|, ViewIndexes(w.dbs[i].schema, w.dbs[i].recorded, v))
  {
    hide ViewIndexes, Inv, Do, StepOk, Looked;
    LookFrame(engine, w, i, v);
    var w1 := Do(engine, w, Look(i, v));
    StepIsExact(engine, w, Look(i, v));
    LookIsHarmless(engine, w, i, v);
    ReadAnswers(engine, w1, |w.dbs|);
    ReadFrame(engine, w1, |w.dbs|);
  }

  lemma LookIsHarmless(engine: Engine, w: World, i: nat, v: View)
    requires StepOk(engine, w, Look(i, v))
    ensures Harmless(engine, w, Look(i, v))
  {}

  lemma ReadFrame(engine: Engine, w: World, i: nat)
    requires StepOk(engine, w, Read(i))
    ensures Do(engine, w, Read(i)).dbs == w.dbs
  {}

  lemma LookFrame(engine: Engine, w: World, i: nat, v: View)
    requires Inv(w) && i < |w.dbs|
    ensures StepOk(engine, w, Look(i, v))
    ensures var w' := Do(engine, w, Look(i, v));
            && |w'.dbs| == |w.dbs| + 1 && w'.dbs[..|w.dbs|] == w.dbs
            && w'.dbs[|w.dbs|].view == v && SameBut(w'.dbs[|w.dbs|], w.dbs[i])
  {
    hide ViewIndexes, TxFits;
    assert w.dbs[i].cell < |w.cells|;
  }

  /** A harmless transaction, warm or cold, then a read: the new log, under the schema it derives, folded again. */
  lemma ApplyThenRead(engine: Engine, w: World, i: nat, t: nat, datoms: seq<Datom>)
    requires Inv(w) && StepOk(engine, w, Apply(i, t, datoms)) && Harmless(engine, w, Apply(i, t, datoms))
    ensures StepOk(engine, Do(engine, w, Apply(i, t, datoms)), Read(|w.dbs|))
    ensures var db := w.dbs[i];
            var w' := Do(engine, Do(engine, w, Apply(i, t, datoms)), Read(|w.dbs|));
            && |w'.dbs| == |w.dbs| + 1 && w'.dbs[..|w.dbs|] == w.dbs
            && w'.dbs[|w.dbs|].recorded == db.recorded + datoms && w'.dbs[|w.dbs|].basisT == t
            && Holds(w', |w.dbs|,
                     ViewIndexes(NextSchema(db.schema, db.names, t, datoms), db.recorded + datoms, Current))
  {
    hide ViewIndexes, TxFits, TouchEach, NextSchema, ChangesSchema, SameShown, Inv, NextUser;
    ApplyIsExact(engine, w, i, t, datoms);
    var w1 := Do(engine, w, Apply(i, t, datoms));
    ReadAnswers(engine, w1, |w.dbs|);
  }

  /** The view selects all there is: no time, a time at or after the basis, or since before the first transaction. */
  predicate Whole(db: Db, v: View) { v.Current? || (v.AsOf? && v.t >= db.basisT) || v == Since(0) }

  /**
   * Two views of one value share a cell exactly when they are the same view or both select all there is, so naming the
   * current value in another way never builds its indexes again.
   */
  lemma LookShares(engine: Engine, w: World, i: nat, v: View)
    requires Inv(w) && i < |w.dbs|
    ensures StepOk(engine, w, Look(i, v))
    ensures var db, w' := w.dbs[i], Do(engine, w, Look(i, v));
            && |w'.dbs| == |w.dbs| + 1
            && (w'.dbs[|w.dbs|].cell == db.cell <==> v == db.view || (Whole(db, v) && Whole(db, db.view)))
            && (w'.cells == if w'.dbs[|w.dbs|].cell == db.cell then w.cells else w.cells + [None])
  {
    hide ViewIndexes, TxFits;
    assert w.dbs[i].cell < |w.cells|;
  }

  /** What a cell holds, once filled, it holds for good. */
  ghost predicate Kept(w: World, w': World) {
    |w.cells| <= |w'.cells| && forall c :: 0 <= c < |w.cells| && w.cells[c].Some? ==> w'.cells[c] == w.cells[c]
  }

  lemma StepWritesOnce(engine: Engine, w: World, step: Step)
    requires StepOk(engine, w, step)
    ensures Kept(w, Do(engine, w, step))
  {
    hide ViewIndexes, TxFits, TouchEach, NextSchema, ChangesSchema, NextUser;
  }

  /** Over every run, harmless or not, no filled cell is ever written again. */
  lemma {:induction false} RunWritesOnce(engine: Engine, w: World, steps: seq<Step>)
    requires RunOk(engine, w, steps)
    ensures Kept(w, Run(engine, w, steps))
    decreases |steps|
  {
    hide Do, StepOk;
    if steps != [] {
      StepWritesOnce(engine, w, steps[0]);
      RunWritesOnce(engine, Do(engine, w, steps[0]), steps[1..]);
    }
  }

  /** A transaction leaves a warm value exactly on top of a warm one, when it reports no schema change. */
  lemma ApplyStaysWarm(engine: Engine, w: World, i: nat, t: nat, datoms: seq<Datom>)
    requires StepOk(engine, w, Apply(i, t, datoms))
    ensures var w' := Do(engine, w, Apply(i, t, datoms));
            && |w'.dbs| == |w.dbs| + 1 && w'.dbs[|w.dbs|].cell == |w.cells| < |w'.cells|
            && (w'.cells[|w.cells|].Some? <==> w.cells[w.dbs[i].cell].Some? && !ChangesSchema(datoms))
  {
    hide ViewIndexes, TxFits, TouchEach, NextSchema, ChangesSchema, NextUser;
  }
}
