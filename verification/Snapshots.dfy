/** Reopening a value from published snapshots, and reading the tail of its log. */
module Snapshots {
  import opened Values
  import opened Datoms
  import opened Liveness
  import opened Schemas
  import opened Indexes
  import opened Scans
  import opened DbRuns

  // ---------------------------------------------------------------------
  // Logs in transaction order
  // ---------------------------------------------------------------------

  ghost predicate ByTransaction(log: seq<Datom>) {
    forall i, j :: 0 <= i < j < |log| ==> log[i].T() <= log[j].T()
  }

  /** A log opened at `base`: a prefix at or before it in any order, then a tail after it in transaction order. */
  ghost predicate Layered(log: seq<Datom>, base: nat, n: nat) {
    && n <= |log| && ByTransaction(log[n..])
    && (forall i :: 0 <= i < n ==> log[i].T() <= base)
    && (forall i :: n <= i < |log| ==> log[i].T() > base)
  }

  /** In a layered log, a cut at or after its base splits it in two. */
  lemma CutSplits(log: seq<Datom>, base: nat, n: nat, t: nat, k: nat)
    requires Layered(log, base, n) && t >= base && k <= |log|
    requires forall i :: k <= i < |log| ==> log[i].T() > t
    requires k > 0 ==> log[k - 1].T() <= t
    ensures forall i :: 0 <= i < k ==> log[i].T() <= t
    ensures UpTo(log, t) == log[..k] && After(log, t) == log[k..]
  {
    hide UpTo, After, SequenceOf;
    forall i | 0 <= i < k ensures log[i].T() <= t {
      if n <= i < k - 1 { assert log[n..][i - n] == log[i] && log[n..][k - 1 - n] == log[k - 1]; }
    }
    assert log == log[..k] + log[k..];
    UpToAppends(log[..k], log[k..], t);
    AfterAppends(log[..k], log[k..], t);
    UpToAll(log[..k], t);
    UpToNone(log[k..], t);
    AfterNone(log[..k], t);
    AfterAll(log[k..], t);
  }

  /** `recorded_since`: walk back from the end while datoms are later than `t`. */
  method RecordedSince(recorded: seq<Datom>, t: nat, ghost base: nat, ghost n: nat) returns (r: seq<Datom>)
    requires Layered(recorded, base, n) && t >= base
    ensures r == After(recorded, t)
    ensures recorded == UpTo(recorded, t) + r
  {
    hide UpTo, After, SequenceOf, Layered;
    var start := |recorded|;
    while start > 0 && recorded[start - 1].T() > t
      invariant 0 <= start <= |recorded|
      invariant forall i :: start <= i < |recorded| ==> recorded[i].T() > t
    {
      start := start - 1;
    }
    CutSplits(recorded, base, n, t, start);
    r := recorded[start..];
  }

  ghost function CutPoint(log: seq<Datom>, t: nat): (k: nat)
    ensures k <= |log| && (k > 0 ==> log[k - 1].T() <= t) && forall i :: k <= i < |log| ==> log[i].T() > t
  {
    if log == [] || log[|log| - 1].T() <= t then |log| else CutPoint(log[..|log| - 1], t)
  }

  /** Folding the recorded tail into the as-of indexes gives the current indexes, in all four orders. */
  lemma TailCompletesAsOf(schema: Schema, log: seq<Datom>, base: nat, n: nat, t: nat)
    requires Layered(log, base, n) && t >= base
    ensures TouchEach(schema, ViewIndexes(schema, log, AsOf(t)), After(log, t)) == ViewIndexes(schema, log, Current)
  {
    hide ProjectAll, TouchEach, Replay, UpTo, After, Layered;
    var k := CutPoint(log, t);
    CutSplits(log, base, n, t, k);
    assert log == log[..k] + log[k..];
    TouchEachIsReplay(schema, Live(log[..k]), log[k..]);
    ReplayAppends(map[], log[..k], log[k..]);
  }

  // ---------------------------------------------------------------------
  // Current snapshots
  // ---------------------------------------------------------------------

  /** The published current snapshot: the live datoms in EAVT key order. */
  ghost function CurrentSnapshot(schema: Schema, log: seq<Datom>): seq<Datom> {
    InOrder(Project(schema, Eavt, Live(log)))
  }

  /** A listing of a live set, in any order. */
  ghost predicate Lists(q: seq<Datom>, live: LiveSet) {
    && (forall d :: d in q ==> d.Eav() in live && live[d.Eav()] == d)
    && (forall f :: f in live ==> live[f] in q)
  }

  lemma CurrentSnapshotLists(schema: Schema, log: seq<Datom>)
    ensures Lists(CurrentSnapshot(schema, log), Live(log))
  {
    hide Components, Project, InOrder, Replay;
    var live := Live(log);
    ReplayIsWellKeyed(map[], log);
    ProjectIsKeyed(schema, Eavt, live);
    InOrderMembers(Project(schema, Eavt, live));
    forall f | f in live ensures live[f] in CurrentSnapshot(schema, log) {
      assert Covered(schema, Eavt, f);
      assert Project(schema, Eavt, live)[Components(Eavt, f)] == live[f];
    }
  }

  /** Replaying a listing of live facts gives them back, whatever its order. */
  lemma ListingReplays(q: seq<Datom>, live: LiveSet)
    requires WellKeyed(live) && Lists(q, live)
    ensures Live(q) == live
  {
    forall f ensures f in Live(q) <==> f in live
             ensures f in live ==> f in Live(q) && Live(q)[f] == live[f]
    {
      LiveMeaning(q, f);
      if f in live {
        assert live[f] in q && live[f].Eav() == f;
        var i := LastMentionExists(q, f);
        assert q[i] in q;
      }
      if f in Live(q) {
        var i: nat :| LastMention(q, f, i) && q[i].added;
        assert q[i] in q;
      }
    }
  }

  /**
   * Opening from the current snapshot and applying the tail gives every view at or after the basis that full replay
   * gives.
   */
  lemma CurrentSnapshotRefinesReplay(schema: Schema, snapped: Schema, log: seq<Datom>, tail: seq<Datom>, basisT: nat,
                                     view: View)
    requires forall d :: d in log ==> d.T() <= basisT
    requires view.Current? || view.Since? || (view.AsOf? && view.t >= basisT)
    ensures ViewIndexes(schema, CurrentSnapshot(snapped, log) + tail, view) == ViewIndexes(schema, log + tail, view)
  {
    hide ProjectAll, CurrentSnapshot;
    var q := CurrentSnapshot(snapped, log);
    CurrentSnapshotLists(snapped, log);
    ReplayIsWellKeyed(map[], log);
    ListingReplays(q, Live(log));
    ReplayAppends(map[], q, tail);
    ReplayAppends(map[], log, tail);
    if view.AsOf? {
      LiveComesFromLog(log);
      UpToAppends(q, tail, view.t);
      UpToAppends(log, tail, view.t);
      UpToAll(q, view.t);
      UpToAll(log, view.t);
      ReplayAppends(map[], q, UpTo(tail, view.t));
      ReplayAppends(map[], log, UpTo(tail, view.t));
    }
  }

  lemma {:induction false} NextUserAppends(mark: nat, log: seq<Datom>, more: seq<Datom>)
    ensures NextUser(mark, log + more) == NextUser(NextUser(mark, log), more)
    decreases |more|
  {
    if more == [] {
      assert log + more == log;
    } else {
      assert (log + more)[..|log + more| - 1] == log + more[..|more| - 1];
      NextUserAppends(mark, log, more[..|more| - 1]);
    }
  }

  lemma {:induction false} NextUserSettled(mark: nat, q: seq<Datom>)
    requires forall d :: d in q && PartitionOf(d.e) == USER_PARTITION ==> SequenceOf(d.e) < mark
    ensures NextUser(mark, q) == mark
    decreases |q|
  {
    if q != [] { NextUserSettled(mark, q[..|q| - 1]); }
  }

  /**
   * With the persisted mark the allocator resumes where full replay would have it, past every user id ever recorded.
   */
  lemma AllocatorSurvives(schema: Schema, log: seq<Datom>, tail: seq<Datom>)
    ensures var mark := NextUser(FIRST_USER_ID, log);
            var reopened := NextUser(Max(mark, FIRST_USER_ID), CurrentSnapshot(schema, log));
            && NextUser(reopened, tail) == NextUser(FIRST_USER_ID, log + tail)
            && forall d :: d in log + tail && PartitionOf(d.e) == USER_PARTITION ==>
                 SequenceOf(d.e) < NextUser(reopened, tail)
  {
    hide CurrentSnapshot;
    var mark := NextUser(FIRST_USER_ID, log);
    NextUserBounds(FIRST_USER_ID, log);
    CurrentSnapshotLists(schema, log);
    LiveComesFromLog(log);
    NextUserSettled(mark, CurrentSnapshot(schema, log));
    NextUserAppends(FIRST_USER_ID, log, tail);
    NextUserBounds(FIRST_USER_ID, log + tail);
  }

  // ---------------------------------------------------------------------
  // Before the basis of a current snapshot
  // ---------------------------------------------------------------------

  /** Some transaction after `t` mentions a fact that was live at `t`. */
  ghost predicate DisturbedAfter(log: seq<Datom>, t: nat) {
    exists d :: d in log && d.T() > t && d.Eav() in Live(UpTo(log, t))
  }

  /**
   * As-of a time before the basis, a current snapshot shows the facts still live at the basis and no newer than `t`.
   */
  lemma SnapshotShowsSurvivors(q: seq<Datom>, live: LiveSet, t: nat)
    requires WellKeyed(live) && Lists(q, live)
    ensures Live(UpTo(q, t)) == map f | f in live && live[f].T() <= t :: live[f]
  {
    var old_ := map f | f in live && live[f].T() <= t :: live[f];
    FilterMembers(q, t);
    ListingReplays(UpTo(q, t), old_);
  }

  /** A log in transaction order is cut in two by any `t`. */
  lemma TransactionCut(log: seq<Datom>, t: nat) returns (head: seq<Datom>, rest: seq<Datom>)
    requires ByTransaction(log)
    ensures log == head + rest && UpTo(log, t) == head && After(log, t) == rest
    ensures forall d :: d in head ==> d.T() <= t
    ensures forall d :: d in rest ==> d.T() > t
    ensures forall k {:trigger log[k]} :: 0 <= k < |log| ==>
              (k < |head| <==> log[k].T() <= t) && (k < |head| ==> head[k] == log[k])
  {
    hide UpTo, After, SequenceOf;
    var k := CutPoint(log, t);
    assert forall i :: 0 <= i < k ==> log[i].T() <= log[k - 1].T();
    assert Layered(log, t, k);
    CutSplits(log, t, k, t, k);
    head, rest := log[..k], log[k..];
    forall d | d in head ensures d.T() <= t { var i :| 0 <= i < k && log[i] == d; }
  }

  /** How a fact's standing at the end of the log relates to its standing at `t`. */
  lemma SurvivorIff(log: seq<Datom>, t: nat, f: Fact)
    requires ByTransaction(log)
    ensures var now, then_ := Live(log), Live(UpTo(log, t));
            var touched := exists d :: d in log && d.T() > t && d.Eav() == f;
            && (touched ==> !(f in now && now[f].T() <= t))
            && (!touched ==> (f in now <==> f in then_) && (f in now ==> now[f] == then_[f] && now[f].T() <= t))
  {
    hide UpTo, After, ByTransaction;
    var head, rest := TransactionCut(log, t);
    ReplayAppends(map[], head, rest);
    LiveComesFromLog(head);
    if exists j :: 0 <= j < |rest| && rest[j].Eav() == f {
      var i := LastMentionExists(rest, f);
      LastMentionDecides(Live(head), rest, f, i);
      assert rest[i] in log && rest[i].T() > t;
    } else {
      UnmentionedKeeps(Live(head), rest, f);
      forall d | d in log && d.T() > t ensures d.Eav() != f {
        assert d in rest;
      }
    }
  }

  /** Before its basis a current snapshot answers as replay does exactly when nothing live then was touched since. */
  lemma CurrentSnapshotBeforeBasis(schema: Schema, log: seq<Datom>, t: nat)
    requires ByTransaction(log)
    ensures Live(UpTo(CurrentSnapshot(schema, log), t)) == Live(UpTo(log, t)) <==> !DisturbedAfter(log, t)
  {
    hide CurrentSnapshot, Live, UpTo;
    var q, live := CurrentSnapshot(schema, log), Live(log);
    CurrentSnapshotLists(schema, log);
    LiveIsWellKeyed(log);
    SnapshotShowsSurvivors(q, live, t);
    var shown, then_ := Live(UpTo(q, t)), Live(UpTo(log, t));
    if DisturbedAfter(log, t) {
      var d :| d in log && d.T() > t && d.Eav() in then_;
      SurvivorIff(log, t, d.Eav());
      assert d.Eav() !in shown;
    } else {
      forall f ensures f in shown <==> f in then_
               ensures f in then_ ==> f in shown && shown[f] == then_[f]
      {
        SurvivorIff(log, t, f);
      }
    }
  }

  lemma LiveIsWellKeyed(log: seq<Datom>)
    ensures WellKeyed(Live(log))
  {
    ReplayIsWellKeyed(map[], log);
  }
}
