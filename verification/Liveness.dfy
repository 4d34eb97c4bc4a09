/** The specification every view answers to: fold the log into the set of live facts. */
module Liveness {
  import opened Datoms

  type LiveSet = map<Fact, Datom>

  /** An assertion makes its fact live; a retraction ends it, whichever transaction asserted it. */
  function Record(live: LiveSet, d: Datom): LiveSet {
    if d.added then live[d.Eav() := d] else live - {d.Eav()}
  }

  function Replay(live: LiveSet, log: seq<Datom>): LiveSet {
    if log == [] then live else Record(Replay(live, log[..|log| - 1]), log[|log| - 1])
  }

  function Live(log: seq<Datom>): LiveSet { Replay(map[], log) }

  datatype View = Current | AsOf(t: nat) | Since(floor: nat) | History

  /** The datoms of transactions up to and including `t`, in log order. */
  function UpTo(log: seq<Datom>, t: nat): seq<Datom> {
    if log == [] then []
    else UpTo(log[..|log| - 1], t) + (if log[|log| - 1].T() <= t then [log[|log| - 1]] else [])
  }

  /** The datoms of transactions after `t`, in log order. */
  function After(log: seq<Datom>, t: nat): seq<Datom> {
    if log == [] then []
    else After(log[..|log| - 1], t) + (if log[|log| - 1].T() > t then [log[|log| - 1]] else [])
  }

  function AddedAfter(live: LiveSet, t: nat): LiveSet {
    map f | f in live && live[f].T() > t :: live[f]
  }

  /** The facts a time view shows; a history view shows datoms instead. */
  function Selected(log: seq<Datom>, view: View): LiveSet
    requires !view.History?
  {
    match view
    case Current => Live(log)
    case AsOf(t) => Live(UpTo(log, t))
    case Since(t) => AddedAfter(Live(log), t)
  }

  /** A live set holds each fact under itself, by an assertion. */
  ghost predicate WellKeyed(live: LiveSet) {
    forall f :: f in live ==> live[f].Eav() == f && live[f].added
  }

  lemma {:induction false} ReplayIsWellKeyed(live: LiveSet, log: seq<Datom>)
    requires WellKeyed(live)
    ensures WellKeyed(Replay(live, log))
    decreases |log|
  {
    if log != [] { ReplayIsWellKeyed(live, log[..|log| - 1]); }
  }

  lemma {:induction false} ReplayAppends(live: LiveSet, log: seq<Datom>, more: seq<Datom>)
    ensures Replay(live, log + more) == Replay(Replay(live, log), more)
    decreases |more|
  {
    if more == [] {
      assert log + more == log;
    } else {
      var n := |log + more|;
      assert (log + more)[..n - 1] == log + more[..|more| - 1];
      ReplayAppends(live, log, more[..|more| - 1]);
    }
  }

  // ---------------------------------------------------------------------
  // What the fold means
  // ---------------------------------------------------------------------

  /** `i` is the last mention of `f` in the log. */
  ghost predicate LastMention(log: seq<Datom>, f: Fact, i: nat) {
    && i < |log| && log[i].Eav() == f
    && (forall j :: i < j < |log| ==> log[j].Eav() != f)
  }

  lemma {:induction false} LastMentionExists(log: seq<Datom>, f: Fact) returns (i: nat)
    requires exists j :: 0 <= j < |log| && log[j].Eav() == f
    ensures LastMention(log, f, i)
  {
    i := |log| - 1;
    while log[i].Eav() != f
      invariant 0 <= i < |log|
      invariant exists j :: 0 <= j <= i && log[j].Eav() == f
      invariant forall j :: i < j < |log| ==> log[j].Eav() != f
      decreases i
    {
      i := i - 1;
    }
  }

  /** A fact the log never mentions keeps whatever standing it had. */
  lemma {:induction false} UnmentionedKeeps(live: LiveSet, log: seq<Datom>, f: Fact)
    requires forall j :: 0 <= j < |log| ==> log[j].Eav() != f
    ensures f in Replay(live, log) <==> f in live
    ensures f in live ==> Replay(live, log)[f] == live[f]
    decreases |log|
  {
    if log != [] {
      UnmentionedKeeps(live, log[..|log| - 1], f);
      assert log[|log| - 1].Eav() != f;
    }
  }

  /** The last mention of a fact decides it: live exactly when asserted there, and by that very datom. */
  lemma {:induction false} LastMentionDecides(live: LiveSet, log: seq<Datom>, f: Fact, i: nat)
    requires LastMention(log, f, i)
    ensures f in Replay(live, log) <==> log[i].added
    ensures log[i].added ==> Replay(live, log)[f] == log[i]
  {
    var upTo, rest := log[..i + 1], log[i + 1..];
    assert log == upTo + rest;
    assert upTo[..i] == log[..i];
    ReplayAppends(live, upTo, rest);
    UnmentionedKeeps(Replay(live, upTo), rest, f);
  }

  /** The live set, said without folding: the facts whose last mention asserts them. */
  lemma LiveMeaning(log: seq<Datom>, f: Fact)
    ensures f in Live(log) <==> exists i: nat :: LastMention(log, f, i) && log[i].added
    ensures forall i: nat :: LastMention(log, f, i) && log[i].added ==> f in Live(log) && Live(log)[f] == log[i]
  {
    if exists j :: 0 <= j < |log| && log[j].Eav() == f {
      var i := LastMentionExists(log, f);
      LastMentionDecides(map[], log, f, i);
    } else {
      UnmentionedKeeps(map[], log, f);
    }
    forall i: nat | LastMention(log, f, i) && log[i].added
      ensures f in Live(log) && Live(log)[f] == log[i]
    {
      LastMentionDecides(map[], log, f, i);
    }
  }

  // ---------------------------------------------------------------------
  // Filtering the log by transaction
  // ---------------------------------------------------------------------

  lemma {:induction false} UpToAppends(log: seq<Datom>, more: seq<Datom>, t: nat)
    ensures UpTo(log + more, t) == UpTo(log, t) + UpTo(more, t)
    decreases |more|
  {
    if more == [] {
      assert log + more == log;
    } else {
      assert (log + more)[..|log + more| - 1] == log + more[..|more| - 1];
      UpToAppends(log, more[..|more| - 1], t);
    }
  }

  lemma {:induction false} UpToAll(log: seq<Datom>, t: nat)
    requires forall d :: d in log ==> d.T() <= t
    ensures UpTo(log, t) == log
    decreases |log|
  {
    if log != [] { UpToAll(log[..|log| - 1], t); assert log == log[..|log| - 1] + [log[|log| - 1]]; }
  }

  lemma {:induction false} UpToNone(log: seq<Datom>, t: nat)
    requires forall d :: d in log ==> d.T() > t
    ensures UpTo(log, t) == []
    decreases |log|
  {
    if log != [] { UpToNone(log[..|log| - 1], t); }
  }

  lemma {:induction false} FilterMembers(log: seq<Datom>, t: nat)
    ensures forall d :: d in UpTo(log, t) <==> d in log && d.T() <= t
    decreases |log|
  {
    if log != [] {
      FilterMembers(log[..|log| - 1], t);
      assert log == log[..|log| - 1] + [log[|log| - 1]];
    }
  }

  lemma {:induction false} AfterAppends(log: seq<Datom>, more: seq<Datom>, t: nat)
    ensures After(log + more, t) == After(log, t) + After(more, t)
    decreases |more|
  {
    if more == [] {
      assert log + more == log;
    } else {
      assert (log + more)[..|log + more| - 1] == log + more[..|more| - 1];
      AfterAppends(log, more[..|more| - 1], t);
    }
  }

  lemma {:induction false} AfterAll(log: seq<Datom>, t: nat)
    requires forall d :: d in log ==> d.T() > t
    ensures After(log, t) == log
    decreases |log|
  {
    if log != [] { AfterAll(log[..|log| - 1], t); assert log == log[..|log| - 1] + [log[|log| - 1]]; }
  }

  lemma {:induction false} AfterNone(log: seq<Datom>, t: nat)
    requires forall d :: d in log ==> d.T() <= t
    ensures After(log, t) == []
    decreases |log|
  {
    if log != [] { AfterNone(log[..|log| - 1], t); }
  }

  lemma {:induction false} LiveComesFromLog(log: seq<Datom>)
    ensures forall f :: f in Live(log) ==> Live(log)[f] in log
    decreases |log|
  {
    if log != [] {
      LiveComesFromLog(log[..|log| - 1]);
      var before, d := Live(log[..|log| - 1]), log[|log| - 1];
      forall f | f in Live(log) ensures Live(log)[f] in log {
        if !(d.added && f == d.Eav()) { assert before[f] in log[..|log| - 1]; }
      }
    }
  }
}
