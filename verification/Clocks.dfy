/** The clock rebuilt when a database is reopened from snapshots, against the clock of the replayed run. */
module Clocks {
  import opened Options
  import opened Bytes
  import opened Values
  import opened Datoms
  import opened Schemas
  import opened SchemaDatoms
  import opened Sorting
  import opened Snapshots
  import opened HistorySnapshots
  import opened Instants

  // ---------------------------------------------------------------------
  // Rebuilding
  // ---------------------------------------------------------------------

  /** An instant asserted on the asserting transaction's own entity. */
  predicate SelfStamp(d: Datom) {
    d.added && d.a == TX_INSTANT && d.e == d.tx && PartitionOf(d.tx) == TX_PARTITION && d.v.Instant?
  }

  function Rebuilt(datoms: seq<Datom>): (map<nat, int>, map<int, nat>) {
    if datoms == [] then (map[], map[]) else
    var (byT, byInstant) := Rebuilt(datoms[..|datoms| - 1]);
    var d := datoms[|datoms| - 1];
    if SelfStamp(d) then Recorded(byT, byInstant, d.T(), d.v.ms) else (byT, byInstant)
  }

  /** The loop of `from_history_snapshot` and `from_current_snapshot`. */
  method RebuildClock(datoms: seq<Datom>) returns (clock: TxInstants)
    ensures fresh(clock) && (clock.byT, clock.byInstant) == Rebuilt(datoms)
  {
    clock := new TxInstants();
    for i := 0 to |datoms|
      invariant fresh(clock) && (clock.byT, clock.byInstant) == Rebuilt(datoms[..i])
    {
      var d := datoms[i];
      assert datoms[..i + 1][..i] == datoms[..i];
      if SelfStamp(d) { clock.Record(d.T(), d.v.ms); }
    }
    assert datoms[..|datoms|] == datoms;
  }

  // ---------------------------------------------------------------------
  // What it holds
  // ---------------------------------------------------------------------

  predicate StampsAs(d: Datom, t: nat, instant: int) { SelfStamp(d) && d.T() == t && d.v.ms == instant }

  /** The listing stamps the transaction with the instant. */
  ghost predicate HasStamp(datoms: seq<Datom>, t: nat, instant: int) {
    exists d :: d in datoms && StampsAs(d, t, instant)
  }

  /** No later stamp of its transaction follows. */
  ghost predicate LastStamp(datoms: seq<Datom>, k: nat) {
    && k < |datoms| && SelfStamp(datoms[k])
    && forall j :: k < j < |datoms| && SelfStamp(datoms[j]) ==> datoms[j].T() != datoms[k].T()
  }

  lemma {:induction false} RebuiltByT(datoms: seq<Datom>, t: nat)
    ensures t in Rebuilt(datoms).0 <==> exists k: nat :: LastStamp(datoms, k) && datoms[k].T() == t
    ensures forall k: nat :: LastStamp(datoms, k) && datoms[k].T() == t ==>
              t in Rebuilt(datoms).0 && Rebuilt(datoms).0[t] == datoms[k].v.ms
    decreases |datoms|
  {
    hide SequenceOf, PartitionOf;
    if datoms != [] {
      var n := |datoms| - 1;
      var init, d := datoms[..n], datoms[n];
      RebuiltByT(init, t);
      if SelfStamp(d) && d.T() == t {
        assert LastStamp(datoms, n);
      } else {
        forall k: nat ensures LastStamp(datoms, k) && datoms[k].T() == t <==> LastStamp(init, k) && init[k].T() == t {
          if k < n { assert init[k] == datoms[k]; }
        }
      }
    }
  }

  lemma {:induction false} RebuiltByInstant(datoms: seq<Datom>, i: int)
    ensures i in Rebuilt(datoms).1 <==> exists t: nat :: HasStamp(datoms, t, i)
    ensures i in Rebuilt(datoms).1 ==>
              && HasStamp(datoms, Rebuilt(datoms).1[i], i)
              && forall t: nat :: HasStamp(datoms, t, i) ==> t <= Rebuilt(datoms).1[i]
    decreases |datoms|
  {
    hide SequenceOf, PartitionOf, HasStamp;
    if datoms != [] {
      var n := |datoms| - 1;
      var init, d := datoms[..n], datoms[n];
      RebuiltByInstant(init, i);
      assert datoms == init + [d];
      forall t: nat ensures HasStamp(datoms, t, i) <==> HasStamp(init, t, i) || StampsAs(d, t, i) {
        StampGrows(init, d, t, i);
      }
      if SelfStamp(d) { assert HasStamp(datoms, d.T(), i) || d.v.ms != i; }
    } else {
      NoStamps(i);
    }
  }

  lemma NoStamps(i: int)
    ensures forall t: nat :: !HasStamp([], t, i)
  {}

  lemma StampGrows(init: seq<Datom>, d: Datom, t: nat, i: int)
    ensures HasStamp(init + [d], t, i) <==> HasStamp(init, t, i) || StampsAs(d, t, i)
  {
    hide StampsAs;
    if StampsAs(d, t, i) { assert d in init + [d]; }
    if HasStamp(init, t, i) {
      var c :| c in init && StampsAs(c, t, i);
      assert c in init + [d];
    }
  }

  // ---------------------------------------------------------------------
  // When it is the clock of the run
  // ---------------------------------------------------------------------

  /** Every transaction of the clock is stamped with its instant, and no other is stamped. */
  ghost predicate Covers(datoms: seq<Datom>, clock: map<nat, int>) {
    && (forall t :: t in clock ==> HasStamp(datoms, t, clock[t]))
    && (forall d :: d in datoms && SelfStamp(d) ==> d.T() in clock)
  }

  /** No transaction is stamped with an instant it did not keep. */
  ghost predicate OnlyKept(datoms: seq<Datom>, clock: map<nat, int>) {
    forall d :: d in datoms && SelfStamp(d) && d.T() in clock ==> d.v.ms == clock[d.T()]
  }

  /** The rebuilt maps are those of the clock. */
  ghost predicate Rebuilds(datoms: seq<Datom>, clock: map<nat, int>) {
    Rebuilt(datoms).0 == clock && Agree(clock, Rebuilt(datoms).1)
  }

  /** In key order the stamps of one transaction come by rising instant. */
  lemma StampsRise(q: seq<Datom>, j: nat, k: nat)
    requires Sorted(InKeyOrder, q) && j <= k < |q| && SelfStamp(q[j]) && SelfStamp(q[k]) && q[j].T() == q[k].T()
    ensures q[j].v.ms <= q[k].v.ms
  {
    hide SequenceOf, PartitionOf;
    StampOrder(q[j], q[k]);
    if j < k { assert InKeyOrder(q[j], q[k]); }
  }

  lemma {:induction false} LastStampExists(datoms: seq<Datom>, j: nat) returns (k: nat)
    requires j < |datoms| && SelfStamp(datoms[j])
    ensures j <= k && LastStamp(datoms, k) && datoms[k].T() == datoms[j].T()
    decreases |datoms| - j
  {
    hide SequenceOf, PartitionOf;
    k := j;
    if !LastStamp(datoms, j) {
      var m :| j < m < |datoms| && SelfStamp(datoms[m]) && datoms[m].T() == datoms[j].T();
      k := LastStampExists(datoms, m);
    }
  }

  lemma KeptRebuilds(q: seq<Datom>, clock: map<nat, int>)
    requires Covers(q, clock) && OnlyKept(q, clock)
    ensures Rebuilds(q, clock)
  {
    hide SequenceOf, PartitionOf, Rebuilt;
    var (byT, byInstant) := Rebuilt(q);
    forall t ensures t in byT <==> t in clock
             ensures t in clock ==> t in byT && byT[t] == clock[t]
    {
      RebuiltByT(q, t);
      if t in clock {
        var d :| d in q && StampsAs(d, t, clock[t]);
        var j :| 0 <= j < |q| && q[j] == d;
        var k := LastStampExists(q, j);
        assert q[k] in q;
      }
      if t in byT {
        var k: nat :| LastStamp(q, k) && q[k].T() == t;
        assert q[k] in q;
      }
    }
    forall t | t in clock ensures clock[t] in byInstant && t <= byInstant[clock[t]] { RebuiltByInstant(q, clock[t]); }
    forall i | i in byInstant ensures byInstant[i] in clock && clock[byInstant[i]] == i { RebuiltByInstant(q, i); }
  }

  lemma RebuiltKept(q: seq<Datom>, clock: map<nat, int>, d: Datom)
    requires Sorted(InKeyOrder, q) && Covers(q, clock) && Monotone(clock) && Rebuilds(q, clock)
    requires d in q && SelfStamp(d)
    ensures d.v.ms == clock[d.T()]
  {
    hide SequenceOf, PartitionOf, Rebuilt, InKeyOrder;
    var t, i := d.T(), d.v.ms;
    assert StampsAs(d, t, i);
    assert HasStamp(q, t, i);
    RebuiltByInstant(q, i);
    var u := Rebuilt(q).1[i];
    assert t <= u && clock[u] == i;
    if t < u {
      var j :| 0 <= j < |q| && q[j] == d;
      var k := LastStampExists(q, j);
      RebuiltByT(q, t);
      StampsRise(q, j, k);
      assert clock[t] <= i;
    }
  }

  /** A clock rebuilt from a listing in key order is the run's exactly when every stamp listed is one that was kept. */
  lemma KeyOrderClock(q: seq<Datom>, clock: map<nat, int>)
    requires Sorted(InKeyOrder, q) && Covers(q, clock) && Monotone(clock)
    ensures Rebuilds(q, clock) <==> OnlyKept(q, clock)
  {
    hide Rebuilds, Covers, Monotone, SequenceOf, PartitionOf;
    if OnlyKept(q, clock) { KeptRebuilds(q, clock); }
    if Rebuilds(q, clock) {
      forall d | d in q && SelfStamp(d) && d.T() in clock ensures d.v.ms == clock[d.T()] { RebuiltKept(q, clock, d); }
    }
  }

  // ---------------------------------------------------------------------
  // Reopened from history
  // ---------------------------------------------------------------------

  /** Commits as `with_transaction_at` leaves them: each asserts its instant on its own transaction entity. */
  ghost predicate Settled(run: seq<Commit>) {
    forall i :: 0 <= i < |run| ==>
      && run[i].t < SEQUENCE_LIMIT && AssertedInstant(run[i].t, run[i].datoms) == Some(run[i].instant)
      && forall d :: d in run[i].datoms ==> d.tx == NewId(TX_PARTITION, run[i].t)
  }

  lemma NewTxId(t: u64)
    requires t < SEQUENCE_LIMIT
    ensures PartitionOf(NewId(TX_PARTITION, t)) == TX_PARTITION && SequenceOf(NewId(TX_PARTITION, t)) == t
  {
    IdRoundTrip(TX_PARTITION, t);
  }

  lemma CommitStamps(c: Commit)
    requires c.t < SEQUENCE_LIMIT && AssertedInstant(c.t, c.datoms) == Some(c.instant)
    requires forall d :: d in c.datoms ==> d.tx == NewId(TX_PARTITION, c.t)
    ensures HasStamp(c.datoms, c.t, c.instant)
  {
    hide NewId, SequenceOf, PartitionOf, AssertedInstant;
    AssertedInstantMeaning(c.t, c.datoms);
    var k: nat :| Survives(c.t, c.datoms, k);
    NewTxId(c.t);
    assert c.datoms[k] in c.datoms && StampsAs(c.datoms[k], c.t, c.instant);
  }

  lemma {:induction false} LogMember(run: seq<Commit>, d: Datom)
    ensures d in LogOf(run) <==> exists i :: 0 <= i < |run| && d in run[i].datoms
    decreases |run|
  {
    if run != [] {
      var init := run[..|run| - 1];
      LogMember(init, d);
      if i :| 0 <= i < |run| && d in run[i].datoms {
        if i < |init| { assert d in init[i].datoms; }
      }
      if d in LogOf(init) {
        var i :| 0 <= i < |init| && d in init[i].datoms;
        assert d in run[i].datoms;
      } else if d in run[|run| - 1].datoms {
        assert 0 <= |run| - 1 < |run|;
      }
    }
  }

  lemma RunIsCovered(run: seq<Commit>)
    requires Timed(run) && Settled(run)
    ensures Covers(LogOf(run), ClockOf(run))
    ensures forall d :: d in LogOf(run) ==> PartitionOf(d.tx) == TX_PARTITION
  {
    hide ClockOf, LogOf, NewId, SequenceOf, PartitionOf, AssertedInstant;
    forall t | t in ClockOf(run) ensures HasStamp(LogOf(run), t, ClockOf(run)[t]) {
      var i := ClockFrom(run, t);
      CommitStamps(run[i]);
      var d :| d in run[i].datoms && StampsAs(d, t, run[i].instant);
      LogMember(run, d);
    }
    forall d | d in LogOf(run)
      ensures PartitionOf(d.tx) == TX_PARTITION && d.T() in ClockOf(run)
    {
      LogMember(run, d);
      var i :| 0 <= i < |run| && d in run[i].datoms;
      NewTxId(run[i].t);
      ClockHas(run, i);
    }
  }

  /** Datoms that stamp nothing do not change the clock. */
  lemma {:induction false} QuietTail(q: seq<Datom>, tail: seq<Datom>)
    requires forall d :: d in tail ==> !SelfStamp(d)
    ensures Rebuilt(q + tail) == Rebuilt(q)
    decreases |tail|
  {
    hide SequenceOf, PartitionOf;
    if tail == [] {
      assert q + tail == q;
    } else {
      assert tail[|tail| - 1] in tail;
      QuietTail(q, tail[..|tail| - 1]);
      assert (q + tail)[..|q + tail| - 1] == q + tail[..|tail| - 1];
    }
  }

  /**
   * The clock of a database reopened from its history is the clock of the run exactly when no transaction asserted an
   * instant on itself that it did not keep.
   */
  lemma ReopenedClock(schema: Schema, run: seq<Commit>)
    requires Timed(run) && Settled(run) && !OmitsHistory(schema, TX_INSTANT)
    ensures Rebuilds(Reopened(schema, LogOf(run)), ClockOf(run)) <==> OnlyKept(LogOf(run), ClockOf(run))
  {
    hide ClockOf, LogOf, Timed, Settled, SequenceOf, PartitionOf, HistorySnapshot, CurrentSnapshot, Rebuilt, InKeyOrder;
    hide Monotone, Agree;
    var log, clock := LogOf(run), ClockOf(run);
    var h, rest := HistorySnapshot(schema, log), OmittedOnly(schema, CurrentSnapshot(schema, log));
    RunIsCovered(run);
    HistorySnapshotMeaning(schema, log);
    SameStamps(h, log, clock);
    TimedIsMonotone(run);
    KeyOrderClock(h, clock);
    OmittedMembers(schema, CurrentSnapshot(schema, log));
    QuietTail(h, rest);
  }

  lemma SameStamps(p: seq<Datom>, q: seq<Datom>, clock: map<nat, int>)
    requires forall d :: SelfStamp(d) ==> (d in p <==> d in q)
    ensures Covers(p, clock) <==> Covers(q, clock)
    ensures OnlyKept(p, clock) <==> OnlyKept(q, clock)
  {
    hide SelfStamp;
    forall t: nat, i: int ensures HasStamp(p, t, i) <==> HasStamp(q, t, i) {}
  }

  function Corrected(t: u64, first: i64, kept: i64): seq<Datom> { [InstantDatom(t, first), InstantDatom(t, kept)] }

  lemma CorrectedIsSettled(t: u64, first: i64, kept: i64)
    requires 1 <= t < SEQUENCE_LIMIT
    ensures var run := [Commit(t, kept, Corrected(t, first, kept))];
            Timed(run) && Settled(run) && LogOf(run) == Corrected(t, first, kept) && ClockOf(run) == map[t := kept]
    ensures SelfStamp(InstantDatom(t, first)) && InstantDatom(t, first).T() == t
  {
    hide NewId, SequenceOf, PartitionOf;
    var datoms := Corrected(t, first, kept);
    NewTxId(t);
    assert datoms[..1] == [datoms[0]] && [Commit(t, kept, datoms)][..0] == [];
    assert AssertedInstant(t, datoms) == Some(kept);
  }

  /** A transaction that corrects its own instant: the reopened clock still resolves the instant it gave up. */
  lemma CorrectedInstant(schema: Schema, t: u64, first: i64, kept: i64)
    requires 1 <= t < SEQUENCE_LIMIT && first != kept && !OmitsHistory(schema, TX_INSTANT)
    ensures var run := [Commit(t, kept, Corrected(t, first, kept))];
            Timed(run) && Settled(run) && !Rebuilds(Reopened(schema, LogOf(run)), ClockOf(run))
  {
    hide NewId, SequenceOf, PartitionOf, Reopened, Rebuilds, Timed, Settled, LogOf, ClockOf, SelfStamp;
    CorrectedIsSettled(t, first, kept);
    ReopenedClock(schema, [Commit(t, kept, Corrected(t, first, kept))]);
    assert Corrected(t, first, kept)[0] in Corrected(t, first, kept);
  }
}
