/** Transaction time: the correspondence between `t` and commit instants, and views named by wall clock. */
module Instants {
  import opened Options
  import opened Bytes
  import opened Values
  import opened Datoms
  import opened Liveness
  import opened SchemaDatoms

  // ---------------------------------------------------------------------
  // The clock
  // ---------------------------------------------------------------------

  /** `by_instant` is what `by_t` determines: each known instant, with the last transaction that shares it. */
  ghost predicate Agree(byT: map<nat, int>, byInstant: map<int, nat>) {
    && (forall t :: t in byT ==> byT[t] in byInstant && t <= byInstant[byT[t]])
    && (forall i :: i in byInstant ==> byInstant[i] in byT && byT[byInstant[i]] == i)
  }

  /** The basis named by an instant: the entry of the greatest known instant at or before it, or zero. */
  ghost predicate Resolves(byInstant: map<int, nat>, instant: int, t: nat) {
    if exists i :: i in byInstant && i <= instant
    then exists i :: && i in byInstant && i <= instant && t == byInstant[i]
                     && forall j :: j in byInstant && j <= instant ==> j <= i
    else t == 0
  }

  /** What recording makes of the two maps: of transactions under one instant the highest is kept. */
  function Recorded(byT: map<nat, int>, byInstant: map<int, nat>, t: nat, instant: int)
    : (map<nat, int>, map<int, nat>)
  {
    (byT[t := instant],
     if instant !in byInstant || byInstant[instant] < t then byInstant[instant := t] else byInstant)
  }

  /** The transaction was recorded under another instant, and no later one shares that. */
  predicate TakesBack(byT: map<nat, int>, byInstant: map<int, nat>, t: nat, instant: int) {
    t in byT && byT[t] != instant && byT[t] in byInstant && byInstant[byT[t]] == t
  }

  lemma RecordIsExact(byT: map<nat, int>, byInstant: map<int, nat>, t: nat, instant: int)
    ensures var (x, y) := Recorded(byT, byInstant, t, instant);
            Agree(byT, byInstant) ==> (Agree(x, y) <==> !TakesBack(byT, byInstant, t, instant))
  {
    var (x, y) := Recorded(byT, byInstant, t, instant);
    if Agree(byT, byInstant) {
      if TakesBack(byT, byInstant, t, instant) {
        var was := byT[t];
        assert was in y && y[was] == t && x[t] != was;
      } else {
        forall i | i in y ensures y[i] in x && x[y[i]] == i {
          if y[i] != t { assert i in byInstant && y[i] == byInstant[i]; }
        }
      }
    }
  }

  class TxInstants {
    var byT: map<nat, int>
    var byInstant: map<int, nat>

    ghost predicate Valid()
      reads this
    {
      Agree(byT, byInstant)
    }

    constructor ()
      ensures Valid() && byT == map[] && byInstant == map[]
    {
      byT, byInstant := map[], map[];
    }

    /**
     * `record`. The clock stays valid exactly when this does not take back the instant of a transaction that no
     * later one shares.
     */
    method Record(t: nat, instant: int)
      modifies this
      ensures (byT, byInstant) == Recorded(old(byT), old(byInstant), t, instant)
      ensures old(Valid()) ==> (Valid() <==> !TakesBack(old(byT), old(byInstant), t, instant))
    {
      RecordIsExact(byT, byInstant, t, instant);
      byT := byT[t := instant];
      if instant !in byInstant || byInstant[instant] < t {
        byInstant := byInstant[instant := t];
      }
    }

    /** `t_at`: the last entry at or before the instant. */
    method TAt(instant: int) returns (t: nat)
      requires Valid()
      ensures Resolves(byInstant, instant, t)
    {
      var known := set i | i in byInstant && i <= instant;
      if known == {} {
        assert forall i :: i in byInstant ==> i !in known;
        return 0;
      }
      var best :| best in known;
      var rest := known - {best};
      while rest != {}
        invariant best in known && rest <= known
        invariant forall i :: i in known && i !in rest ==> i <= best
      {
        var i :| i in rest;
        if i > best { best := i; }
        rest := rest - {i};
      }
      assert best in byInstant && best <= instant;
      assert forall j :: j in byInstant && j <= instant ==> j in known;
      t := byInstant[best];
    }
  }

  /** The second map adds nothing to the first, so the order of recording cannot matter. */
  lemma ClockIsDetermined(byT: map<nat, int>, x: map<int, nat>, y: map<int, nat>)
    requires Agree(byT, x) && Agree(byT, y)
    ensures x == y
  {
    forall i | i in x ensures i in y && x[i] == y[i] {
      assert x[i] in byT && byT[x[i]] == i;
    }
    forall i | i in y ensures i in x {
      assert y[i] in byT && byT[y[i]] == i;
    }
  }

  /** The greatest transaction committed at or before the instant, or zero. */
  ghost predicate LastCommitted(byT: map<nat, int>, instant: int, t: nat) {
    if exists u :: u in byT && byT[u] <= instant
    then t in byT && byT[t] <= instant && forall u :: u in byT && byT[u] <= instant ==> u <= t
    else t == 0
  }

  ghost predicate Monotone(byT: map<nat, int>) {
    forall t, u :: t in byT && u in byT && t < u ==> byT[t] <= byT[u]
  }

  /** Transaction `u` follows `t` but was stamped with an earlier instant. */
  predicate StepsBack(byT: map<nat, int>, t: nat, u: nat) {
    t in byT && u in byT && t < u && byT[u] < byT[t]
  }

  /** A step back in time is made good later: some still later commit is no later than the instant stepped back from. */
  ghost predicate Recovers(byT: map<nat, int>) {
    forall t: nat, u: nat :: StepsBack(byT, t, u) ==> exists w :: w in byT && u < w && byT[w] <= byT[t]
  }

  lemma {:induction false} GreatestExists(s: set<nat>) returns (t: nat)
    requires s != {}
    ensures t in s && forall u :: u in s ==> u <= t
    decreases s
  {
    t :| t in s;
    if s != {t} {
      var u := GreatestExists(s - {t});
      assert forall w :: w in s ==> w == t || w in s - {t};
      if t < u { t := u; }
    }
  }

  /** Where steps back recover, the commit of the greatest instant by then is also the last commit by then. */
  lemma GreatestInstantIsLast(byT: map<nat, int>, instant: int, t: nat)
    requires Recovers(byT) && t in byT && byT[t] <= instant
    requires forall u :: u in byT && byT[u] <= instant ==> byT[u] < byT[t] || (byT[u] == byT[t] && u <= t)
    ensures forall u :: u in byT && byT[u] <= instant ==> u <= t
  {
    var held := set u | u in byT && byT[u] <= instant;
    assert t in held;
    var g := GreatestExists(held);
    forall w | w in byT && g < w ensures byT[w] > instant { assert w !in held; }
    assert !StepsBack(byT, t, g);
    forall u | u in byT && byT[u] <= instant ensures u <= t { assert u in held; }
  }

  lemma ResolvesIsLast(byT: map<nat, int>, byInstant: map<int, nat>, instant: int, t: nat)
    requires Agree(byT, byInstant) && Recovers(byT) && Resolves(byInstant, instant, t)
    ensures LastCommitted(byT, instant, t)
  {
    hide Recovers;
    if exists i :: i in byInstant && i <= instant {
      var i :| && i in byInstant && i <= instant && t == byInstant[i]
               && forall j :: j in byInstant && j <= instant ==> j <= i;
      assert t in byT && byT[t] == i;
      GreatestInstantIsLast(byT, instant, t);
    }
  }

  lemma MonotoneRecovers(byT: map<nat, int>)
    requires Monotone(byT)
    ensures Recovers(byT)
  {}

  /** Resolution names the last commit at or before every instant exactly when every step back recovers. */
  lemma ResolutionIsExact(byT: map<nat, int>, byInstant: map<int, nat>)
    requires Agree(byT, byInstant)
    ensures (forall instant: int, t: nat :: Resolves(byInstant, instant, t) ==> LastCommitted(byT, instant, t))
            <==> Recovers(byT)
    ensures Monotone(byT) ==> Recovers(byT)
  {
    if Recovers(byT) {
      forall instant: int, t: nat | Resolves(byInstant, instant, t) ensures LastCommitted(byT, instant, t) {
        ResolvesIsLast(byT, byInstant, instant, t);
      }
    } else {
      var t: nat, u: nat :| StepsBack(byT, t, u) && forall w :: w in byT && u < w ==> byT[w] > byT[t];
      var i := byT[t];
      assert i in byInstant;
      assert Resolves(byInstant, i, byInstant[i]);
      assert !LastCommitted(byT, i, byInstant[i]);
    }
  }

  // ---------------------------------------------------------------------
  // Commits
  // ---------------------------------------------------------------------

  /** `tx_instant_datom`. */
  function InstantDatom(t: u64, instant: i64): Datom {
    Datom(NewId(TX_PARTITION, t), TX_INSTANT, Instant(instant), NewId(TX_PARTITION, t), true)
  }

  /** `asserted_instant`: the instant the datoms assert on their own transaction entity, unless retracted again. */
  function AssertedInstant(t: u64, datoms: seq<Datom>): Option<i64> {
    if datoms == [] then None else
    var before, d := AssertedInstant(t, datoms[..|datoms| - 1]), datoms[|datoms| - 1];
    if d.e == NewId(TX_PARTITION, t) && d.a == TX_INSTANT && d.v.Instant? then
      if d.added then Some(d.v.ms) else if before == Some(d.v.ms) then None else before
    else before
  }

  /** The datom asserts, or retracts, an instant on its own transaction entity. */
  predicate Stamps(t: u64, d: Datom) { d.e == NewId(TX_PARTITION, t) && d.a == TX_INSTANT && d.v.Instant? }

  /** The last assertion, and not retracted after it. */
  ghost predicate Survives(t: u64, datoms: seq<Datom>, k: nat) {
    && k < |datoms| && Stamps(t, datoms[k]) && datoms[k].added
    && forall j :: k < j < |datoms| && Stamps(t, datoms[j]) ==> !datoms[j].added && datoms[j].v != datoms[k].v
  }

  /** The instant found is that of the last assertion, provided no retraction of it follows. */
  lemma {:induction false} AssertedInstantMeaning(t: u64, datoms: seq<Datom>)
    ensures forall k: nat :: Survives(t, datoms, k) ==> AssertedInstant(t, datoms) == Some(datoms[k].v.ms)
    ensures AssertedInstant(t, datoms).Some? ==> exists k: nat :: Survives(t, datoms, k)
    decreases |datoms|
  {
    hide NewId;
    if datoms != [] {
      var n := |datoms| - 1;
      var init, d := datoms[..n], datoms[n];
      AssertedInstantMeaning(t, init);
      forall k: nat | Survives(t, datoms, k) ensures AssertedInstant(t, datoms) == Some(datoms[k].v.ms) {
        if k < n {
          assert Survives(t, init, k) && init[k] == datoms[k];
        }
      }
      if AssertedInstant(t, datoms).Some? {
        if Stamps(t, d) && d.added {
          assert Survives(t, datoms, n);
        } else {
          var k: nat :| Survives(t, init, k);
          assert init[k] == datoms[k];
          assert Survives(t, datoms, k);
        }
      }
    }
  }

  method FindAssertedInstant(t: u64, datoms: seq<Datom>) returns (asserted: Option<i64>)
    ensures asserted == AssertedInstant(t, datoms)
    ensures forall k: nat :: Survives(t, datoms, k) ==> asserted == Some(datoms[k].v.ms)
    ensures asserted.Some? ==> exists k: nat :: Survives(t, datoms, k)
  {
    AssertedInstantMeaning(t, datoms);
    asserted := None;
    for i := 0 to |datoms|
      invariant asserted == AssertedInstant(t, datoms[..i])
    {
      var d := datoms[i];
      assert datoms[..i + 1][..i] == datoms[..i];
      if d.e == NewId(TX_PARTITION, t) && d.a == TX_INSTANT && d.v.Instant? {
        if d.added {
          asserted := Some(d.v.ms);
        } else if asserted == Some(d.v.ms) {
          asserted := None;
        }
      }
    }
    assert datoms[..|datoms|] == datoms;
  }

  datatype Commit = Commit(t: u64, instant: i64, datoms: seq<Datom>)

  /**
   * `with_transaction_at`: an asserted instant that survives wins and nothing is added; otherwise the supplied one is
   * recorded and one datom asserts it on the transaction. Either way the datoms then assert the instant recorded.
   */
  function Settle(c: Commit): (r: Commit)
    ensures forall k: nat :: Survives(c.t, c.datoms, k) ==> r == Commit(c.t, c.datoms[k].v.ms, c.datoms)
    ensures (forall k: nat :: !Survives(c.t, c.datoms, k)) ==>
              var tx := NewId(TX_PARTITION, c.t);
              r == Commit(c.t, c.instant, c.datoms + [Datom(tx, TX_INSTANT, Instant(c.instant), tx, true)])
    ensures AssertedInstant(c.t, r.datoms) == Some(r.instant)
  {
    AssertedInstantMeaning(c.t, c.datoms);
    var asserted := AssertedInstant(c.t, c.datoms);
    if asserted.Some? then c.(instant := asserted.value)
    else
      var more := c.datoms + [InstantDatom(c.t, c.instant)];
      assert more[..|more| - 1] == c.datoms;
      c.(datoms := more)
  }

  // ---------------------------------------------------------------------
  // Views named by wall clock
  // ---------------------------------------------------------------------

  function LogOf(run: seq<Commit>): seq<Datom> {
    if run == [] then [] else LogOf(run[..|run| - 1]) + run[|run| - 1].datoms
  }

  function ClockOf(run: seq<Commit>): map<nat, int> {
    if run == [] then map[] else ClockOf(run[..|run| - 1])[run[|run| - 1].t := run[|run| - 1].instant]
  }

  function CommittedBy(run: seq<Commit>, instant: int): seq<Commit> {
    if run == [] then []
    else CommittedBy(run[..|run| - 1], instant) + (if run[|run| - 1].instant <= instant then [run[|run| - 1]] else [])
  }

  /** Transactions in order from one, datoms stamped with theirs, and a clock that never goes back. */
  ghost predicate Timed(run: seq<Commit>) {
    && Rising(run)
    && (forall i :: 0 <= i < |run| ==> run[i].t >= 1 && forall d :: d in run[i].datoms ==> d.T() == run[i].t)
  }

  ghost predicate Rising(run: seq<Commit>) {
    forall i, j :: 0 <= i < j < |run| ==> run[i].t < run[j].t && run[i].instant <= run[j].instant
  }

  lemma {:induction false} ClockHas(run: seq<Commit>, i: nat)
    requires Rising(run) && i < |run|
    ensures run[i].t in ClockOf(run) && ClockOf(run)[run[i].t] == run[i].instant
    decreases |run|
  {
    var n := |run| - 1;
    if i < n {
      ClockHas(run[..n], i);
      assert run[..n][i] == run[i];
    }
  }

  lemma {:induction false} ClockFrom(run: seq<Commit>, t: nat) returns (i: nat)
    requires Rising(run) && t in ClockOf(run)
    ensures i < |run| && run[i].t == t && run[i].instant == ClockOf(run)[t]
    decreases |run|
  {
    i := |run| - 1;
    if run[i].t != t {
      var init := run[..i];
      i := ClockFrom(init, t);
      assert init[i] == run[i];
    }
  }

  lemma {:induction false} LogWithin(run: seq<Commit>)
    requires Timed(run)
    ensures forall d :: d in LogOf(run) ==> exists i :: 0 <= i < |run| && run[i].t == d.T()
    decreases |run|
  {
    if run != [] {
      var init := run[..|run| - 1];
      LogWithin(init);
      forall d | d in LogOf(run) ensures exists i :: 0 <= i < |run| && run[i].t == d.T() {
        if d in LogOf(init) {
          var i :| 0 <= i < |init| && init[i].t == d.T();
          assert run[i].t == d.T();
        } else {
          assert run[|run| - 1].t == d.T();
        }
      }
    }
  }

  lemma {:induction false} AllCommittedBy(run: seq<Commit>, instant: int)
    requires forall i :: 0 <= i < |run| ==> run[i].instant <= instant
    ensures CommittedBy(run, instant) == run
    decreases |run|
  {
    if run != [] { AllCommittedBy(run[..|run| - 1], instant); }
  }

  /** Where the last commit is too late, the clock without it answers the same. */
  lemma LateCommitIsIgnored(run: seq<Commit>, instant: int, u: nat)
    requires Rising(run) && run != [] && run[|run| - 1].instant > instant
    ensures var init := run[..|run| - 1];
            u in ClockOf(run) && ClockOf(run)[u] <= instant <==> u in ClockOf(init) && ClockOf(init)[u] <= instant
    ensures u in ClockOf(run) && ClockOf(run)[u] <= instant ==> u < run[|run| - 1].t
  {
    hide ClockOf;
    var n := |run| - 1;
    var init := run[..n];
    if u in ClockOf(run) && ClockOf(run)[u] <= instant {
      var i := ClockFrom(run, u);
      assert i < n;
      ClockHas(init, i);
      assert init[i] == run[i];
    }
    if u in ClockOf(init) && ClockOf(init)[u] <= instant {
      var i := ClockFrom(init, u);
      assert init[i] == run[i];
      ClockHas(run, i);
    }
  }

  lemma LastCommitIsLate(run: seq<Commit>, instant: int, t: nat)
    requires Rising(run) && run != [] && run[|run| - 1].t >= 1 && LastCommitted(ClockOf(run), instant, t)
    ensures run[|run| - 1].instant <= instant ==> t == run[|run| - 1].t
    ensures run[|run| - 1].instant > instant
            ==> t < run[|run| - 1].t && LastCommitted(ClockOf(run[..|run| - 1]), instant, t)
  {
    hide ClockOf, Rising;
    var n := |run| - 1;
    if run[n].instant > instant {
      forall u: nat
        ensures u in ClockOf(run) && ClockOf(run)[u] <= instant
                <==> u in ClockOf(run[..n]) && ClockOf(run[..n])[u] <= instant
        ensures u in ClockOf(run) && ClockOf(run)[u] <= instant ==> u < run[n].t
      {
        LateCommitIsIgnored(run, instant, u);
      }
    } else {
      ClockHas(run, n);
      var i := ClockFrom(run, t);
      assert Rising(run) && run[i].t == t;
      LastIsGreatest(run, i);
    }
  }

  lemma LastIsGreatest(run: seq<Commit>, i: nat)
    requires Rising(run) && i < |run|
    ensures run[i].t <= run[|run| - 1].t && run[i].instant <= run[|run| - 1].instant
  {}

  /** `as_of_instant`: resolving an instant and cutting the log there replays exactly the commits at or before it. */
  lemma {:induction false} AsOfInstantReplays(run: seq<Commit>, instant: int, t: nat)
    requires Timed(run) && LastCommitted(ClockOf(run), instant, t)
    ensures UpTo(LogOf(run), t) == LogOf(CommittedBy(run, instant))
    decreases |run|
  {
    hide UpTo, ClockOf, LastCommitted, SequenceOf;
    if run != [] {
      var n := |run| - 1;
      var init, last := run[..n], run[n];
      LastCommitIsLate(run, instant, t);
      if last.instant <= instant {
        AllCommittedBy(run, instant);
        LogWithin(run);
        forall d | d in LogOf(run) ensures d.T() <= t {
          var i :| 0 <= i < |run| && run[i].t == d.T();
          LastIsGreatest(run, i);
        }
        UpToAll(LogOf(run), t);
      } else {
        AsOfInstantReplays(init, instant, t);
        UpToAppends(LogOf(init), last.datoms, t);
        UpToNone(last.datoms, t);
        assert CommittedBy(run, instant) == CommittedBy(init, instant);
      }
    } else {
      UpToAll(LogOf(run), t);
    }
  }

  lemma TimedIsMonotone(run: seq<Commit>)
    requires Timed(run)
    ensures Monotone(ClockOf(run))
  {
    hide ClockOf;
    forall t, u | t in ClockOf(run) && u in ClockOf(run) && t < u ensures ClockOf(run)[t] <= ClockOf(run)[u] {
      var i := ClockFrom(run, t);
      var j := ClockFrom(run, u);
      assert i < j;
    }
  }

  /** Recording the commits of a run in any order, each at least once, makes the clock of the run. */
  method RecordRun(run: seq<Commit>, order: seq<nat>) returns (clock: TxInstants)
    requires Rising(run) && (forall j :: 0 <= j < |order| ==> order[j] < |run|)
    requires forall i :: 0 <= i < |run| ==> i in order
    ensures fresh(clock) && clock.Valid() && clock.byT == ClockOf(run)
  {
    hide ClockOf;
    clock := new TxInstants();
    for j := 0 to |order|
      invariant fresh(clock) && clock.Valid()
      invariant forall t :: t in clock.byT ==> t in ClockOf(run) && clock.byT[t] == ClockOf(run)[t]
      invariant forall i :: i in order[..j] ==> run[i].t in clock.byT
    {
      ClockHas(run, order[j]);
      assert order[..j + 1] == order[..j] + [order[j]];
      clock.Record(run[order[j]].t, run[order[j]].instant);
    }
    assert order[..|order|] == order;
    forall t | t in ClockOf(run) ensures t in clock.byT { var i := ClockFrom(run, t); }
    assert clock.byT == ClockOf(run);
  }

  /** The live facts of a log whose datom is not among the early ones. */
  function LiveBeyond(log: seq<Datom>, early: seq<Datom>): LiveSet {
    map f | f in Live(log) && Live(log)[f] !in early :: Live(log)[f]
  }

  lemma SinceIsBeyond(log: seq<Datom>, t: nat)
    ensures AddedAfter(Live(log), t) == LiveBeyond(log, UpTo(log, t))
  {
    hide Live, UpTo, SequenceOf;
    FilterMembers(log, t);
    LiveComesFromLog(log);
  }

  /**
   * End to end: an as-of view named by instant is the replay of the commits by then, a since view the live facts of the
   * commits after.
   */
  lemma InstantViews(run: seq<Commit>, byInstant: map<int, nat>, instant: int, t: nat)
    requires Timed(run) && Agree(ClockOf(run), byInstant) && Resolves(byInstant, instant, t)
    ensures Selected(LogOf(run), AsOf(t)) == Live(LogOf(CommittedBy(run, instant)))
    ensures Selected(LogOf(run), Since(t)) == LiveBeyond(LogOf(run), LogOf(CommittedBy(run, instant)))
  {
    hide Live, UpTo, LiveBeyond, AddedAfter, Timed, LogOf, CommittedBy, ClockOf, Agree, Resolves, LastCommitted,
         Recovers;
    hide Monotone;
    TimedIsMonotone(run);
    MonotoneRecovers(ClockOf(run));
    ResolvesIsLast(ClockOf(run), byInstant, instant, t);
    AsOfInstantReplays(run, instant, t);
    SinceIsBeyond(LogOf(run), t);
  }
}
