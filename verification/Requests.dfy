/**
 * One request, or one refresh, run with nothing in between.
 *
 * From any safe state, in the midst of whatever else is in flight, the steps add up to what a caller expects of a
 * policy reference and a cache.
 */
module Requests {
  import opened Options
  import opened Authorizer

  /** A step of the caller that arrives last: no commit, no failure, no step of another. */
  predicate Own(s: System, e: Event) { !e.Commit? && !e.Fail? && (e.Spawn? || e.i == |s.tasks|) }

  /** The steps of one caller, in turn, lead from one state to another. */
  ghost predicate Steps(rules: Rules, s: System, events: seq<Event>, t: System) {
    && RunOk(rules, s, events) && Run(rules, s, events) == t
    && forall i :: 0 <= i < |events| ==> Own(s, events[i]) && (events[i].Spawn? ==> i == 0)
  }

  lemma NoSteps(rules: Rules, s: System)
    ensures Steps(rules, s, [], s)
  {}

  lemma OneMore(rules: Rules, s: System, events: seq<Event>, t: System, e: Event)
    requires Steps(rules, s, events, t) && Enabled(t, e) && Own(s, e) && (e.Spawn? ==> events == [])
    ensures Steps(rules, s, events + [e], Next(rules, t, e))
  {
    RunExtends(rules, s, events, e);
  }

  /** The state with the caller's record last. */
  function With(s: System, ask: Option<Request>, live: bool, phase: Phase): System {
    s.(tasks := s.tasks + [Task(ask, live, s.source, phase)])
  }

  lemma Moves(rules: Rules, from: System, events: seq<Event>, s: System, ask: Option<Request>, live: bool, phase: Phase,
              e: Event, r: System, next: Phase) returns (more: seq<Event>)
    requires Steps(rules, from, events, With(s, ask, live, phase)) && Enabled(With(s, ask, live, phase), e)
    requires Own(from, e) && !e.Spawn?
    requires Next(rules, With(s, ask, live, phase), e) == With(r, ask, live, next)
    ensures more == events + [e] && Steps(rules, from, more, With(r, ask, live, next))
  {
    hide Steps;
    OneMore(rules, from, events, With(s, ask, live, phase), e);
    more := events + [e];
  }

  /** The system with the policy at its source, and a cache that holds nothing of another policy. */
  function Refreshed(s: System): System {
    if s.policy == Some(s.source) then s
    else s.(policy := Some(s.source),
            cache := if s.cache.basisT == s.source then s.cache else Cache(s.source, s.cache.capacity, map[]))
  }

  /** A caller that refreshes ends up holding the policy at the source's basis, compiled only if it was not already. */
  lemma RefreshRuns(rules: Rules, from: System, events: seq<Event>, s: System, ask: Option<Request>, live: bool)
    returns (more: seq<Event>)
    requires Steps(rules, from, events, With(s, ask, live, Refreshing)) && |s.tasks| == |from.tasks|
    ensures Steps(rules, from, more, With(Refreshed(s), ask, live, Holding(s.source)))
  {
    hide Steps;
    var i, b := |s.tasks|, s.source;
    more := Moves(rules, from, events, s, ask, live, Refreshing, Snapshot(i), s, Snapshotted(b));
    if s.policy == Some(b) {
      more := Moves(rules, from, more, s, ask, live, Snapshotted(b), Compare(i), s, Holding(b));
    } else {
      more := Moves(rules, from, more, s, ask, live, Snapshotted(b), Compare(i), s, Compiling(b));
      more := Moves(rules, from, more, s, ask, live, Compiling(b), Compile(i), s, Compiled(b));
      var swapped := s.(policy := Some(b));
      more := Moves(rules, from, more, s, ask, live, Compiled(b), Swap(i), swapped, Installed(b));
      more := Moves(rules, from, more, swapped, ask, live, Installed(b), Settle(i), Refreshed(s), Holding(b));
    }
  }

  /** A background refresh on its own. */
  lemma RefreshAlone(rules: Rules, s: System, live: bool) returns (events: seq<Event>)
    ensures Steps(rules, s, events, With(Refreshed(s), None, true, Holding(s.source)))
  {
    hide Steps;
    NoSteps(rules, s);
    OneMore(rules, s, [], s, Spawn(None, live));
    events := Moves(rules, s, [] + [Spawn(None, live)], s, None, true, Arrived, Pin(|s.tasks|), s, Refreshing);
    events := RefreshRuns(rules, s, events, s, None, true);
  }

  // ---------------------------------------------------------------------
  // A request
  // ---------------------------------------------------------------------

  /** The system a request finds once it holds a policy: refreshed when it must be fresh or none is loaded. */
  function Held(s: System, live: bool): System { if live || s.policy.None? then Refreshed(s) else s }

  /** The entries that are of the policy held. */
  function Usable(c: Cache, b: nat): map<CacheKey, Decision> { if c.basisT == b then c.entries else map[] }

  predicate Hit(rules: Rules, c: Cache, b: nat, r: Request) {
    c.capacity > 0 && rules.keyOf(b, r) in Usable(c, b)
  }

  function AnswerOf(rules: Rules, c: Cache, b: nat, r: Request): Decision {
    if Hit(rules, c, b, r) then Usable(c, b)[rules.keyOf(b, r)] else rules.decide(b, r)
  }

  /** The cache after the answer: what was usable, the new decision added, all dropped first when it was full. */
  function CacheAfter(rules: Rules, c: Cache, b: nat, r: Request): Cache {
    if c.capacity == 0 then c
    else if Hit(rules, c, b, r) then Cache(b, c.capacity, Usable(c, b))
    else
      var kept := if |Usable(c, b)| >= c.capacity then map[] else Usable(c, b);
      Cache(b, c.capacity, kept[rules.keyOf(b, r) := rules.decide(b, r)])
  }

  lemma AnswerRuns(rules: Rules, from: System, events: seq<Event>, s: System, r: Request, live: bool, b: nat)
    returns (more: seq<Event>)
    requires Steps(rules, from, events, With(s, Some(r), live, Holding(b))) && |s.tasks| == |from.tasks|
    ensures Steps(rules, from, more, With(s.(cache := CacheAfter(rules, s.cache, b, r)), Some(r), live,
                                          Answered(b, AnswerOf(rules, s.cache, b, r))))
  {
    hide Steps;
    var i, d, done := |s.tasks|, AnswerOf(rules, s.cache, b, r), s.(cache := CacheAfter(rules, s.cache, b, r));
    if Hit(rules, s.cache, b, r) {
      more := Moves(rules, from, events, s, Some(r), live, Holding(b), Lookup(i), done, Answered(b, d));
    } else {
      var looked := if s.cache.capacity == 0 then s else s.(cache := Cache(b, s.cache.capacity, Usable(s.cache, b)));
      more := Moves(rules, from, events, s, Some(r), live, Holding(b), Lookup(i), looked, Missed(b));
      more := Moves(rules, from, more, looked, Some(r), live, Missed(b), Evaluate(i), looked, Evaluated(b, d));
      more := Moves(rules, from, more, looked, Some(r), live, Evaluated(b, d), Remember(i), done, Answered(b, d));
    }
  }

  /**
   * A request on its own, from any state: it holds the policy at the source's basis when it must be fresh or none is
   * loaded, and the loaded one otherwise; it is answered from the cache when that policy's entries have its key, and by
   * the policy otherwise; and its answer is remembered.
   */
  lemma AskAlone(rules: Rules, s: System, r: Request, live: bool) returns (events: seq<Event>, b: nat)
    ensures b == if live || s.policy.None? then s.source else s.policy.value
    ensures var held := Held(s, live);
            Steps(rules, s, events, With(held.(cache := CacheAfter(rules, held.cache, b, r)), Some(r), live,
                                         Answered(b, AnswerOf(rules, held.cache, b, r))))
  {
    hide Steps;
    NoSteps(rules, s);
    OneMore(rules, s, [], s, Spawn(Some(r), live));
    events := [] + [Spawn(Some(r), live)];
    var i := |s.tasks|;
    if live || s.policy.None? {
      b := s.source;
      events := Moves(rules, s, events, s, Some(r), live, Arrived, Pin(i), s, Refreshing);
      events := RefreshRuns(rules, s, events, s, Some(r), live);
    } else {
      b := s.policy.value;
      events := Moves(rules, s, events, s, Some(r), live, Arrived, Pin(i), s, Holding(b));
    }
    events := AnswerRuns(rules, s, events, Held(s, live), r, live, b);
  }

  /** Loading can fail while it reads or compiles, and only then; the caller is turned away and nothing else moves. */
  lemma FailsAlone(rules: Rules, s: System, ask: Option<Request>, live: bool, phase: Phase)
    ensures Enabled(With(s, ask, live, phase), Fail(|s.tasks|)) <==> phase.Refreshing? || phase.Compiling?
    ensures Enabled(With(s, ask, live, phase), Fail(|s.tasks|)) ==>
              Next(rules, With(s, ask, live, phase), Fail(|s.tasks|)) == With(s, ask, live, Unavailable)
  {
    if phase.Refreshing? || phase.Compiling? {
      var before, after := With(s, ask, live, phase), With(s, ask, live, Unavailable);
      assert Next(rules, before, Fail(|s.tasks|)).tasks == after.tasks;
    }
  }
}
