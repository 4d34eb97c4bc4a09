/** Reopening from history and current snapshots, whose log is in key order rather than transaction order. */
module HistorySnapshots {
  import opened Options
  import opened Bytes
  import opened Values
  import opened Datoms
  import opened Liveness
  import opened Schemas
  import opened Sorting
  import opened Indexes
  import opened Scans
  import opened Snapshots

  // ---------------------------------------------------------------------
  // The reopened log
  // ---------------------------------------------------------------------

  function OmittedOnly(schema: Schema, q: seq<Datom>): seq<Datom> {
    if q == [] then []
    else OmittedOnly(schema, q[..|q| - 1]) + (if OmitsHistory(schema, q[|q| - 1].a) then [q[|q| - 1]] else [])
  }

  /** The published history snapshot: every retained datom, in EAVT key order. */
  ghost function HistorySnapshot(schema: Schema, log: seq<Datom>): seq<Datom> {
    InOrder(HistoryIndex(schema, Eavt, log))
  }

  /** `from_history_snapshot`: the history, then the current values of attributes that keep none. */
  ghost function Reopened(schema: Schema, log: seq<Datom>): seq<Datom> {
    HistorySnapshot(schema, log) + OmittedOnly(schema, CurrentSnapshot(schema, log))
  }

  lemma {:induction false} OmittedMembers(schema: Schema, q: seq<Datom>)
    ensures forall d :: d in OmittedOnly(schema, q) <==> d in q && OmitsHistory(schema, d.a)
    decreases |q|
  {
    if q != [] {
      OmittedMembers(schema, q[..|q| - 1]);
      assert q == q[..|q| - 1] + [q[|q| - 1]];
    }
  }

  /** Every datom is stamped by a transaction entity. */
  ghost predicate Stamped(log: seq<Datom>) {
    forall d :: d in log ==> PartitionOf(d.tx) == TX_PARTITION
  }

  lemma StampOrder(d: Datom, c: Datom)
    requires PartitionOf(d.tx) == PartitionOf(c.tx) == TX_PARTITION
    ensures d.tx < U63_LIMIT
    ensures d.tx < c.tx <==> d.T() < c.T()
    ensures d.tx == c.tx <==> d.T() == c.T()
  {}

  predicate InKeyOrder(d: Datom, c: Datom) { DatomLess(Eavt, d, c) }

  /** The history snapshot holds exactly the retained datoms, sorted by fact, transaction, retraction first. */
  lemma HistorySnapshotMeaning(schema: Schema, log: seq<Datom>)
    requires Stamped(log)
    ensures Sorted(InKeyOrder, HistorySnapshot(schema, log))
    ensures forall d :: d in HistorySnapshot(schema, log) <==> d in log && !OmitsHistory(schema, d.a)
  {
    hide Key, DatomLess, HistoryIndex, Less;
    var index := HistoryIndex(schema, Eavt, log);
    HistoryMembers(schema, Eavt, log);
    InOrderMembers(index);
    BytesOrder();
    OrderedMeaning(Less, index.Keys);
    var keys, q := Ordered(Less, index.Keys), HistorySnapshot(schema, log);
    assert q == DatomsOf(index, keys);
    forall i, j | 0 <= i < j < |q| ensures InKeyOrder(q[i], q[j]) {
      assert keys[i] in keys && keys[j] in keys;
      StampOrder(q[i], q[j]);
      StampOrder(q[j], q[i]);
      KeyOrder(Eavt, q[i], q[j]);
    }
    forall d ensures d in q <==> d in log && !OmitsHistory(schema, d.a) {
      if d in log && !OmitsHistory(schema, d.a) {
        StampOrder(d, d);
        assert ShownIn(schema, Eavt)(d);
        assert index[Key(Eavt, d)] == d;
      }
    }
  }

  // ---------------------------------------------------------------------
  // The history view
  // ---------------------------------------------------------------------

  lemma RetainedDecideHistory(schema: Schema, order: IndexOrder, p: seq<Datom>, q: seq<Datom>)
    requires forall d: Datom :: !OmitsHistory(schema, d.a) ==> (d in p <==> d in q)
    ensures HistoryIndex(schema, order, p) == HistoryIndex(schema, order, q)
  {
    hide FullKeyOf, DatomAt;
    FullKeyInverts(order, schema, Entries(p));
    FullKeyInverts(order, schema, Entries(q));
  }

  lemma ReopenedMembers(schema: Schema, log: seq<Datom>)
    requires Stamped(log)
    ensures forall d: Datom :: !OmitsHistory(schema, d.a) ==> (d in Reopened(schema, log) <==> d in log)
  {
    hide HistorySnapshot, CurrentSnapshot;
    HistorySnapshotMeaning(schema, log);
    OmittedMembers(schema, CurrentSnapshot(schema, log));
  }

  /** The history view of the reopened value, tail applied, is the history view of full replay. */
  lemma HistoryViewSurvives(schema: Schema, log: seq<Datom>, tail: seq<Datom>)
    requires Stamped(log)
    ensures ViewIndexes(schema, Reopened(schema, log) + tail, History) == ViewIndexes(schema, log + tail, History)
  {
    hide HistoryIndex, Reopened;
    ReopenedMembers(schema, log);
    var p, q := Reopened(schema, log) + tail, log + tail;
    RetainedDecideHistory(schema, Eavt, p, q);
    RetainedDecideHistory(schema, Aevt, p, q);
    RetainedDecideHistory(schema, Avet, p, q);
    RetainedDecideHistory(schema, Vaet, p, q);
  }

  // ---------------------------------------------------------------------
  // As-of views
  // ---------------------------------------------------------------------

  /** What an as-of view at `t` says of one fact: the datom asserting it, or nothing. */
  function Standing(log: seq<Datom>, f: Fact, t: nat): Option<Datom> {
    var live := Live(UpTo(log, t));
    if f in live then Some(live[f]) else None
  }

  lemma LastMentionStands(log: seq<Datom>, f: Fact, t: nat, i: nat)
    requires LastMention(UpTo(log, t), f, i)
    ensures Standing(log, f, t) == if UpTo(log, t)[i].added then Some(UpTo(log, t)[i]) else None
  {
    LastMentionDecides(map[], UpTo(log, t), f, i);
  }

  lemma UnmentionedStands(log: seq<Datom>, f: Fact, t: nat)
    requires forall d :: d in log && d.T() <= t ==> d.Eav() != f
    ensures Standing(log, f, t) == None
  {
    FilterMembers(log, t);
    UnmentionedKeeps(map[], UpTo(log, t), f);
  }

  lemma {:induction false} UpToStaysSorted(less: (Datom, Datom) -> bool, log: seq<Datom>, t: nat)
    requires Sorted(less, log)
    ensures Sorted(less, UpTo(log, t))
    decreases |log|
  {
    if log != [] {
      var init := log[..|log| - 1];
      UpToStaysSorted(less, init, t);
      FilterMembers(init, t);
      forall i | 0 <= i < |UpTo(init, t)| ensures less(UpTo(init, t)[i], log[|log| - 1]) {
        assert UpTo(init, t)[i] in init;
      }
    }
  }

  /** The latest mention of `f` by `t`, and whether its transaction also asserted `f`. */
  ghost predicate AssertedWith(log: seq<Datom>, f: Fact, d: Datom) {
    exists c :: c in log && c.Eav() == f && c.added && c.T() == d.T()
  }

  /** No mention of the fact up to `t` belongs to a later transaction. */
  ghost predicate NoneLater(h: seq<Datom>, f: Fact, t: nat, d: Datom) {
    forall c :: c in h && c.Eav() == f && c.T() <= t ==> c.T() <= d.T()
  }

  lemma LastIsLatest(log: seq<Datom>, f: Fact, t: nat, i: nat)
    requires ByTransaction(log) && LastMention(UpTo(log, t), f, i)
    ensures NoneLater(log, f, t, UpTo(log, t)[i])
  {
    hide UpTo, SequenceOf;
    var head, rest := TransactionCut(log, t);
    forall c | c in log && c.Eav() == f && c.T() <= t ensures c.T() <= head[i].T() {
      var j :| 0 <= j < |log| && log[j] == c;
      assert head[j] == c && log[i] == head[i];
    }
  }

  /** In key order the last mention is by the latest transaction, and an assertion if that transaction made one. */
  lemma KeyOrderDecides(h: seq<Datom>, f: Fact, t: nat, d: Datom)
    requires Sorted(InKeyOrder, h) && Stamped(h)
    requires d in h && d.Eav() == f && d.T() <= t
    requires NoneLater(h, f, t, d)
    ensures Standing(h, f, t) == if AssertedWith(h, f, d) then Some(d.(added := true)) else None
  {
    hide UpTo, SequenceOf, PartitionOf;
    var q := UpTo(h, t);
    FilterMembers(h, t);
    UpToStaysSorted(InKeyOrder, h, t);
    assert d in q;
    var i := LastMentionExists(q, f);
    LastMentionStands(h, f, t, i);
    assert q[i] in q;
    forall c | c in q && c.Eav() == f ensures c == q[i] || DatomLess(Eavt, c, q[i]) {
      var j :| 0 <= j < |q| && q[j] == c;
      if j != i { assert InKeyOrder(q[j], q[i]); }
    }
    FactLessIsTotal(Eavt, f, f);
    StampOrder(d, q[i]);
    StampOrder(q[i], d);
    if AssertedWith(h, f, d) {
      var c :| c in h && c.Eav() == f && c.added && c.T() == d.T();
      assert c in q;
      StampOrder(c, q[i]);
      StampOrder(d, c);
    }
  }

  /** A transaction that asserts `f` and ends by retracting it. */
  ghost predicate EndsRetracted(log: seq<Datom>, f: Fact) {
    exists j :: 0 <= j < |log| && RetractsLast(log, f, j) && AssertedWith(log, f, log[j])
  }

  ghost predicate RetractsLast(log: seq<Datom>, f: Fact, j: nat) {
    && j < |log| && log[j].Eav() == f && !log[j].added
    && forall k :: j < k < |log| && log[k].Eav() == f ==> log[k].T() > log[j].T()
  }

  lemma OmittedDoNotStand(schema: Schema, log: seq<Datom>, tail: seq<Datom>, f: Fact, t: nat)
    requires forall d :: d in tail ==> d.Eav() != f
    ensures Standing(log + tail, f, t) == Standing(log, f, t)
  {
    UpToAppends(log, tail, t);
    FilterMembers(tail, t);
    ReplayAppends(map[], UpTo(log, t), UpTo(tail, t));
    UnmentionedKeeps(Live(UpTo(log, t)), UpTo(tail, t), f);
  }

  lemma ReopenedStanding(schema: Schema, log: seq<Datom>, f: Fact, t: nat)
    requires !OmitsHistory(schema, f.a)
    ensures Standing(Reopened(schema, log), f, t) == Standing(HistorySnapshot(schema, log), f, t)
  {
    hide HistorySnapshot, CurrentSnapshot, Standing;
    OmittedMembers(schema, CurrentSnapshot(schema, log));
    OmittedDoNotStand(schema, HistorySnapshot(schema, log), OmittedOnly(schema, CurrentSnapshot(schema, log)), f, t);
  }

  /**
   * One fact at one time: the reopened value and replay differ exactly where the deciding transaction undid its own
   * assertion.
   */
  lemma StandingAgrees(schema: Schema, log: seq<Datom>, f: Fact, t: nat, i: nat)
    requires ByTransaction(log) && Stamped(log) && !OmitsHistory(schema, f.a)
    requires LastMention(UpTo(log, t), f, i)
    ensures Standing(Reopened(schema, log), f, t) == Standing(log, f, t)
            <==> !(!UpTo(log, t)[i].added && AssertedWith(log, f, UpTo(log, t)[i]))
  {
    hide HistorySnapshot, Reopened, Standing, SequenceOf, PartitionOf;
    var h := HistorySnapshot(schema, log);
    HistorySnapshotMeaning(schema, log);
    ReopenedStanding(schema, log, f, t);
    LastMentionStands(log, f, t, i);
    var head, rest := TransactionCut(log, t);
    var d := head[i];
    FilterMembers(log, t);
    assert d in head && d in log;
    LastIsLatest(log, f, t, i);
    KeyOrderDecides(h, f, t, d);
    assert AssertedWith(h, f, d) <==> AssertedWith(log, f, d);
    assert d.added ==> AssertedWith(log, f, d);
  }

  lemma CleanAgrees(schema: Schema, log: seq<Datom>, f: Fact, t: nat)
    requires ByTransaction(log) && Stamped(log) && !OmitsHistory(schema, f.a) && !EndsRetracted(log, f)
    ensures Standing(Reopened(schema, log), f, t) == Standing(log, f, t)
  {
    hide Reopened, Standing, SequenceOf;
    var head, rest := TransactionCut(log, t);
    FilterMembers(log, t);
    if exists j :: 0 <= j < |head| && head[j].Eav() == f {
      var i := LastMentionExists(head, f);
      StandingAgrees(schema, log, f, t, i);
      assert head[i] == log[i] && head[i] in head;
      if !head[i].added {
        forall k | i < k < |log| && log[k].Eav() == f ensures log[k].T() > log[i].T() {
          assert log[k].T() > t;
        }
        assert RetractsLast(log, f, i);
      }
    } else {
      ReopenedMembers(schema, log);
      forall d | d in log && d.T() <= t ensures d.Eav() != f { assert d in head; }
      UnmentionedStands(log, f, t);
      UnmentionedStands(Reopened(schema, log), f, t);
    }
  }

  lemma UncleanDiffers(schema: Schema, log: seq<Datom>, f: Fact) returns (t: nat)
    requires ByTransaction(log) && Stamped(log) && !OmitsHistory(schema, f.a) && EndsRetracted(log, f)
    ensures Standing(Reopened(schema, log), f, t) != Standing(log, f, t)
  {
    hide Reopened, Standing, SequenceOf;
    var j :| 0 <= j < |log| && RetractsLast(log, f, j) && AssertedWith(log, f, log[j]);
    t := log[j].T();
    var head, rest := TransactionCut(log, t);
    assert head[j] == log[j];
    forall k | j < k < |head| ensures head[k].Eav() != f { assert head[k] == log[k] && head[k] in head; }
    StandingAgrees(schema, log, f, t, j);
  }

  /**
   * As-of views of the reopened value agree with full replay on every retained fact at every time exactly when no
   * transaction asserts a retained fact and ends by retracting it.
   */
  lemma HistorySnapshotIsExact(schema: Schema, log: seq<Datom>)
    requires ByTransaction(log) && Stamped(log)
    ensures (forall f: Fact, t: nat :: !OmitsHistory(schema, f.a) ==>
               Standing(Reopened(schema, log), f, t) == Standing(log, f, t))
            <==> (forall f: Fact :: !OmitsHistory(schema, f.a) ==> !EndsRetracted(log, f))
  {
    hide Reopened, Standing, EndsRetracted;
    forall f: Fact, t: nat | !OmitsHistory(schema, f.a) && !EndsRetracted(log, f)
      ensures Standing(Reopened(schema, log), f, t) == Standing(log, f, t)
    {
      CleanAgrees(schema, log, f, t);
    }
    if f: Fact :| !OmitsHistory(schema, f.a) && EndsRetracted(log, f) {
      var t := UncleanDiffers(schema, log, f);
    }
  }

  /** What a tail makes of a fact depends only on how the fact stood before it. */
  lemma TailKeepsAgreement(p: seq<Datom>, q: seq<Datom>, tail: seq<Datom>, f: Fact, t: nat)
    requires Standing(p, f, t) == Standing(q, f, t)
    ensures Standing(p + tail, f, t) == Standing(q + tail, f, t)
  {
    hide UpTo, SequenceOf;
    UpToAppends(p, tail, t); UpToAppends(q, tail, t);
    var more := UpTo(tail, t);
    ReplayAppends(map[], UpTo(p, t), more); ReplayAppends(map[], UpTo(q, t), more);
    if exists j :: 0 <= j < |more| && more[j].Eav() == f {
      var i := LastMentionExists(more, f);
      LastMentionDecides(Live(UpTo(p, t)), more, f, i); LastMentionDecides(Live(UpTo(q, t)), more, f, i);
    } else {
      UnmentionedKeeps(Live(UpTo(p, t)), more, f); UnmentionedKeeps(Live(UpTo(q, t)), more, f);
    }
  }

  /** With any tail applied, as-of views still agree on every retained fact the snapshot did not lose. */
  lemma AsOfSurvivesTail(schema: Schema, log: seq<Datom>, tail: seq<Datom>, f: Fact, t: nat)
    requires ByTransaction(log) && Stamped(log) && !OmitsHistory(schema, f.a) && !EndsRetracted(log, f)
    ensures Standing(Reopened(schema, log) + tail, f, t) == Standing(log + tail, f, t)
  {
    hide Reopened, Standing, EndsRetracted;
    CleanAgrees(schema, log, f, t);
    TailKeepsAgreement(Reopened(schema, log), log, tail, f, t);
  }

  /** The smallest log on which they differ: one transaction, one fact asserted and then retracted. */
  lemma SelfUndoingTransaction(schema: Schema, d: Datom)
    requires PartitionOf(d.tx) == TX_PARTITION && d.added && !OmitsHistory(schema, d.a)
    ensures var log := [d, d.(added := false)];
            Standing(Reopened(schema, log), d.Eav(), d.T()) != Standing(log, d.Eav(), d.T())
  {
    hide Reopened, Standing;
    var log := [d, d.(added := false)];
    assert log[0] in log && log[0].T() <= d.T();
    assert UpTo(log, d.T()) == log by { UpToAll(log, d.T()); }
    assert LastMention(UpTo(log, d.T()), d.Eav(), 1);
    StandingAgrees(schema, log, d.Eav(), d.T(), 1);
    assert AssertedWith(log, d.Eav(), log[1]);
  }

  // ---------------------------------------------------------------------
  // The current view
  // ---------------------------------------------------------------------

  lemma AlwaysStanding(log: seq<Datom>, f: Fact)
    ensures Standing(log, f, SEQUENCE_LIMIT) == if f in Live(log) then Some(Live(log)[f]) else None
  {
    UpToAll(log, SEQUENCE_LIMIT);
  }

  lemma OmittedStanding(schema: Schema, log: seq<Datom>, f: Fact)
    requires Stamped(log) && OmitsHistory(schema, f.a)
    ensures f in Live(Reopened(schema, log)) <==> f in Live(log)
    ensures f in Live(log) ==> Live(Reopened(schema, log))[f] == Live(log)[f]
  {
    hide HistorySnapshot, CurrentSnapshot, SequenceOf, PartitionOf;
    var q := CurrentSnapshot(schema, log);
    var h, c := HistorySnapshot(schema, log), OmittedOnly(schema, q);
    HistorySnapshotMeaning(schema, log);
    OmittedMembers(schema, q);
    CurrentSnapshotLists(schema, log);
    LiveIsWellKeyed(log);
    ReplayAppends(map[], h, c);
    forall j | 0 <= j < |h| ensures h[j].Eav() != f { assert h[j] in h; }
    UnmentionedKeeps(map[], h, f);
    if f in Live(log) {
      assert Live(log)[f] in c;
      var i := LastMentionExists(c, f);
      assert c[i] in c;
      LastMentionDecides(Live(h), c, f, i);
    } else {
      forall j | 0 <= j < |c| ensures c[j].Eav() != f { assert c[j] in c; }
      UnmentionedKeeps(Live(h), c, f);
    }
  }

  /**
   * Under the same condition the reopened value, tail applied, has replay's current and since views, no-history
   * facts included.
   */
  lemma ReopenedRefinesReplay(schema: Schema, log: seq<Datom>, tail: seq<Datom>, view: View)
    requires ByTransaction(log) && Stamped(log)
    requires forall f: Fact :: !OmitsHistory(schema, f.a) ==> !EndsRetracted(log, f)
    requires view.Current? || view.Since?
    ensures ViewIndexes(schema, Reopened(schema, log) + tail, view) == ViewIndexes(schema, log + tail, view)
  {
    hide Reopened, Standing, EndsRetracted, ProjectAll, Replay;
    var r := Reopened(schema, log);
    forall f ensures f in Live(r) <==> f in Live(log)
             ensures f in Live(log) ==> f in Live(r) && Live(r)[f] == Live(log)[f]
    {
      if OmitsHistory(schema, f.a) {
        OmittedStanding(schema, log, f);
      } else {
        CleanAgrees(schema, log, f, SEQUENCE_LIMIT);
        AlwaysStanding(log, f);
        AlwaysStanding(r, f);
      }
    }
    assert Live(r) == Live(log);
    ReplayAppends(map[], r, tail);
    ReplayAppends(map[], log, tail);
  }
}
