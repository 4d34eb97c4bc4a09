/**
 * The authorizer's policy reference and check cache under concurrent requests.
 *
 * Every lock is one step: a request reads the source, compiles, swaps the reference, retargets the cache, looks a
 * result up, evaluates and stores it, with steps of other requests in between.
 */
module Authorizer {
  import opened Options

  datatype CacheKey = CacheKey(principal: string, action: string, object_: string)

  datatype Request = Request(principal: string, action: string, database: Option<string>)

  type Decision = string

  /** What the policy at a basis makes of a request: the key it is cached under, and the decision on it. */
  datatype Rules = Rules(keyOf: (nat, Request) -> CacheKey, decide: (nat, Request) -> Decision)

  /** At each basis, requests cached under one key have one decision. */
  ghost predicate KeysDetermine(rules: Rules) {
    forall b, r, q :: rules.keyOf(b, r) == rules.keyOf(b, q) ==> rules.decide(b, r) == rules.decide(b, q)
  }

  // ---------------------------------------------------------------------
  // The check cache
  // ---------------------------------------------------------------------

  datatype Cache = Cache(basisT: nat, capacity: nat, entries: map<CacheKey, Decision>)

  function Retarget(c: Cache, basisT: nat): Cache {
    if c.basisT == basisT then c else c.(basisT := basisT, entries := map[])
  }

  function Put(c: Cache, basisT: nat, key: CacheKey, d: Decision): Cache {
    var on := Retarget(c, basisT);
    on.(entries := (if |on.entries| >= on.capacity then map[] else on.entries)[key := d])
  }

  /** The cache as `CheckCache` updates it. */
  class CheckCache {
    var basisT: nat
    const capacity: nat
    var entries: map<CacheKey, Decision>

    constructor (capacity: nat)
      ensures Now() == Cache(0, capacity, map[])
    {
      this.capacity := capacity;
      basisT, entries := 0, map[];
    }

    function Now(): Cache
      reads this
    {
      Cache(basisT, capacity, entries)
    }

    method RetargetTo(t: nat)
      modifies this
      ensures Now() == Retarget(old(Now()), t)
    {
      if basisT != t {
        basisT := t;
        entries := map[];
      }
    }

    method Get(t: nat, key: CacheKey) returns (hit: Option<Decision>)
      modifies this
      ensures Now() == Retarget(old(Now()), t)
      ensures hit == if key in Now().entries then Some(Now().entries[key]) else None
    {
      RetargetTo(t);
      hit := if key in entries then Some(entries[key]) else None;
    }

    method Store(t: nat, key: CacheKey, d: Decision)
      modifies this
      ensures Now() == Put(old(Now()), t, key, d)
    {
      RetargetTo(t);
      if |entries| >= capacity { entries := map[]; }
      entries := entries[key := d];
    }
  }

  // ---------------------------------------------------------------------
  // The machine
  // ---------------------------------------------------------------------

  datatype Phase =
    | Arrived
    | Refreshing
    | Snapshotted(read: nat)
    | Compiling(read: nat)
    | Compiled(read: nat)
    | Installed(read: nat)
    | Holding(basis: nat)
    | Missed(basis: nat)
    | Evaluated(basis: nat, result: Decision)
    | Answered(basis: nat, result: Decision)
    | Unavailable

  /** A request, or a background refresh when it asks nothing. */
  datatype Task = Task(ask: Option<Request>, live: bool, arrivedAt: nat, phase: Phase)

  /** The source's basis, the compiled policy's basis, the cache and whatever is in flight. */
  datatype System = System(source: nat, policy: Option<nat>, cache: Cache, tasks: seq<Task>)

  datatype Event =
    | Commit(basis: nat)
    | Spawn(ask: Option<Request>, live: bool)
    | Pin(i: nat)
    | Snapshot(i: nat)
    | Compare(i: nat)
    | Compile(i: nat)
    | Swap(i: nat)
    | Settle(i: nat)
    | Lookup(i: nat)
    | Evaluate(i: nat)
    | Remember(i: nat)
    | Fail(i: nat)

  function At(s: System, i: nat, phase: Phase): System
    requires i < |s.tasks|
  {
    s.(tasks := s.tasks[i := s.tasks[i].(phase := phase)])
  }

  predicate Enabled(s: System, e: Event) {
    match e
    case Commit(basis) => basis >= s.source
    case Spawn(_, _) => true
    case Pin(i) => i < |s.tasks| && s.tasks[i].phase.Arrived?
    case Snapshot(i) => i < |s.tasks| && s.tasks[i].phase.Refreshing?
    case Compare(i) => i < |s.tasks| && s.tasks[i].phase.Snapshotted?
    case Compile(i) => i < |s.tasks| && s.tasks[i].phase.Compiling?
    case Swap(i) => i < |s.tasks| && s.tasks[i].phase.Compiled?
    case Settle(i) => i < |s.tasks| && s.tasks[i].phase.Installed?
    case Lookup(i) => i < |s.tasks| && s.tasks[i].phase.Holding? && s.tasks[i].ask.Some?
    case Evaluate(i) => i < |s.tasks| && s.tasks[i].phase.Missed? && s.tasks[i].ask.Some?
    case Remember(i) => i < |s.tasks| && s.tasks[i].phase.Evaluated? && s.tasks[i].ask.Some?
    case Fail(i) => i < |s.tasks| && (s.tasks[i].phase.Refreshing? || s.tasks[i].phase.Compiling?)
  }

  /** One step of `refresh` or `decide`, or a commit to the source. */
  function Next(rules: Rules, s: System, e: Event): System
    requires Enabled(s, e)
  {
    match e
    case Commit(basis) => s.(source := basis)
    case Spawn(ask, live) => s.(tasks := s.tasks + [Task(ask, live || ask.None?, s.source, Arrived)])
    case Pin(i) =>
      At(s, i, if s.tasks[i].live || s.policy.None? then Refreshing else Holding(s.policy.value))
    case Snapshot(i) => At(s, i, Snapshotted(s.source))
    case Compare(i) =>
      var b := s.tasks[i].phase.read;
      At(s, i, if s.policy == Some(b) then Holding(b) else Compiling(b))
    case Compile(i) => At(s, i, Compiled(s.tasks[i].phase.read))
    case Swap(i) => At(s, i, Installed(s.tasks[i].phase.read)).(policy := Some(s.tasks[i].phase.read))
    case Settle(i) =>
      var b := s.tasks[i].phase.read;
      At(s, i, Holding(b)).(cache := Retarget(s.cache, b))
    case Lookup(i) =>
      var b := s.tasks[i].phase.basis;
      var key := rules.keyOf(b, s.tasks[i].ask.value);
      if s.cache.capacity == 0 then At(s, i, Missed(b)) else
      var c := Retarget(s.cache, b);
      At(s, i, if key in c.entries then Answered(b, c.entries[key]) else Missed(b)).(cache := c)
    case Evaluate(i) => At(s, i, Evaluated(s.tasks[i].phase.basis,
                                           rules.decide(s.tasks[i].phase.basis, s.tasks[i].ask.value)))
    case Remember(i) =>
      var b, d := s.tasks[i].phase.basis, s.tasks[i].phase.result;
      var done := At(s, i, Answered(b, d));
      if s.cache.capacity == 0 then done else done.(cache := Put(s.cache, b, rules.keyOf(b, s.tasks[i].ask.value), d))
    case Fail(i) => At(s, i, Unavailable)
  }

  predicate RunOk(rules: Rules, s: System, events: seq<Event>)
    decreases |events|
  {
    events == [] || (Enabled(s, events[0]) && RunOk(rules, Next(rules, s, events[0]), events[1..]))
  }

  function Run(rules: Rules, s: System, events: seq<Event>): System
    requires RunOk(rules, s, events)
    decreases |events|
  {
    if events == [] then s else Run(rules, Next(rules, s, events[0]), events[1..])
  }

  function Initial(capacity: nat): System { System(0, None, Cache(0, capacity, map[]), []) }

  ghost predicate Reachable(rules: Rules, capacity: nat, s: System) {
    exists events :: RunOk(rules, Initial(capacity), events) && Run(rules, Initial(capacity), events) == s
  }

  lemma {:induction false} RunExtends(rules: Rules, s: System, events: seq<Event>, e: Event)
    requires RunOk(rules, s, events) && Enabled(Run(rules, s, events), e)
    ensures RunOk(rules, s, events + [e]) && Run(rules, s, events + [e]) == Next(rules, Run(rules, s, events), e)
    decreases |events|
  {
    hide Next, Enabled;
    if events != [] {
      RunExtends(rules, Next(rules, s, events[0]), events[1..], e);
      assert (events + [e])[1..] == events[1..] + [e];
    } else {
      assert ([e])[1..] == [];
    }
  }

  lemma ReachNext(rules: Rules, capacity: nat, s: System, e: Event)
    requires Reachable(rules, capacity, s) && Enabled(s, e)
    ensures Reachable(rules, capacity, Next(rules, s, e))
  {
    hide Next, Enabled;
    var events :| RunOk(rules, Initial(capacity), events) && Run(rules, Initial(capacity), events) == s;
    RunExtends(rules, Initial(capacity), events, e);
  }

  lemma ReachInitial(rules: Rules, capacity: nat)
    ensures Reachable(rules, capacity, Initial(capacity))
  {
    assert RunOk(rules, Initial(capacity), []);
    assert Run(rules, Initial(capacity), []) == Initial(capacity);
  }

  // ---------------------------------------------------------------------
  // Safety
  // ---------------------------------------------------------------------

  /** A decision on some request cached under this key. */
  ghost predicate Decides(rules: Rules, b: nat, key: CacheKey, d: Decision) {
    exists r :: rules.keyOf(b, r) == key && rules.decide(b, r) == d
  }

  /** Every cached result is a decision of the policy at the cache's basis, and there are never too many. */
  ghost predicate CacheOk(rules: Rules, c: Cache) {
    && (forall k :: k in c.entries ==> Decides(rules, c.basisT, k, c.entries[k]))
    && |c.entries| <= c.capacity
  }

  /** A fresh task holds nothing older than its arrival; a result is a decision of the policy held. */
  ghost predicate TaskOk(rules: Rules, source: nat, t: Task) {
    && t.arrivedAt <= source
    && match t.phase
       case Arrived => true
       case Refreshing => true
       case Snapshotted(b) => t.arrivedAt <= b <= source
       case Compiling(b) => t.arrivedAt <= b <= source
       case Compiled(b) => t.arrivedAt <= b <= source
       case Installed(b) => t.arrivedAt <= b <= source
       case Holding(b) => Recent(t, b, source)
       case Missed(b) => Recent(t, b, source)
       case Evaluated(b, d) => Recent(t, b, source) && t.ask.Some? && d == rules.decide(b, t.ask.value)
       case Answered(b, d) =>
         Recent(t, b, source) && t.ask.Some? && Decides(rules, b, rules.keyOf(b, t.ask.value), d)
       case Unavailable => true
  }

  predicate Recent(t: Task, b: nat, source: nat) { b <= source && (t.live ==> t.arrivedAt <= b) }

  ghost predicate Inv(rules: Rules, s: System) {
    && CacheOk(rules, s.cache)
    && (s.policy.Some? ==> s.policy.value <= s.source)
    && (forall i :: 0 <= i < |s.tasks| ==> TaskOk(rules, s.source, s.tasks[i]))
  }

  lemma RetargetKeeps(rules: Rules, c: Cache, b: nat)
    requires CacheOk(rules, c)
    ensures CacheOk(rules, Retarget(c, b)) && Retarget(c, b).basisT == b && Retarget(c, b).capacity == c.capacity
  {}

  lemma PutKeeps(rules: Rules, c: Cache, b: nat, r: Request)
    requires CacheOk(rules, c) && c.capacity > 0
    ensures CacheOk(rules, Put(c, b, rules.keyOf(b, r), rules.decide(b, r)))
  {
    var on := Retarget(c, b);
    RetargetKeeps(rules, c, b);
    var kept := if |on.entries| >= on.capacity then map[] else on.entries;
    var next := kept[rules.keyOf(b, r) := rules.decide(b, r)];
    assert next.Keys == kept.Keys + {rules.keyOf(b, r)};
    assert Decides(rules, b, rules.keyOf(b, r), rules.decide(b, r));
  }

  lemma TaskKeeps(rules: Rules, s: System, i: nat, phase: Phase)
    requires i < |s.tasks| && forall k :: 0 <= k < |s.tasks| ==> TaskOk(rules, s.source, s.tasks[k])
    requires TaskOk(rules, s.source, s.tasks[i].(phase := phase))
    ensures forall k :: 0 <= k < |s.tasks| ==> TaskOk(rules, s.source, At(s, i, phase).tasks[k])
  {}

  predicate Refreshes(e: Event) {
    e.Pin? || e.Snapshot? || e.Compare? || e.Compile? || e.Swap? || e.Settle? || e.Fail?
  }

  lemma RefreshKeeps(rules: Rules, s: System, e: Event)
    requires Inv(rules, s) && Enabled(s, e) && Refreshes(e)
    ensures Inv(rules, Next(rules, s, e))
  {
    hide CacheOk, Retarget, Put, Decides;
    if e.Settle? { RetargetKeeps(rules, s.cache, s.tasks[e.i].phase.read); }
    TaskKeeps(rules, s, e.i, Next(rules, s, e).tasks[e.i].phase);
  }

  lemma DecideKeeps(rules: Rules, s: System, e: Event)
    requires Inv(rules, s) && Enabled(s, e) && (e.Lookup? || e.Evaluate? || e.Remember?)
    ensures Inv(rules, Next(rules, s, e))
  {
    hide CacheOk, Retarget, Put, Decides;
    var b, r := s.tasks[e.i].phase.basis, s.tasks[e.i].ask.value;
    if e.Lookup? {
      RetargetKeeps(rules, s.cache, b);
      HitDecides(rules, s, e.i);
    } else if e.Remember? {
      if s.cache.capacity > 0 { PutKeeps(rules, s.cache, b, r); }
      OwnDecision(rules, b, r);
    }
    TaskKeeps(rules, s, e.i, Next(rules, s, e).tasks[e.i].phase);
  }

  lemma StepKeeps(rules: Rules, s: System, e: Event)
    requires Inv(rules, s) && Enabled(s, e)
    ensures Inv(rules, Next(rules, s, e))
  {
    hide CacheOk, Decides;
    if Refreshes(e) {
      RefreshKeeps(rules, s, e);
    } else if e.Lookup? || e.Evaluate? || e.Remember? {
      DecideKeeps(rules, s, e);
    }
  }

  lemma OwnDecision(rules: Rules, b: nat, r: Request)
    ensures Decides(rules, b, rules.keyOf(b, r), rules.decide(b, r))
  {}

  /** A hit is a decision of the policy the request holds, whichever request stored it. */
  lemma HitDecides(rules: Rules, s: System, i: nat)
    requires CacheOk(rules, s.cache) && Enabled(s, Lookup(i))
    ensures var after := Next(rules, s, Lookup(i)).tasks[i].phase;
            after.Answered? ==>
              Decides(rules, after.basis, rules.keyOf(after.basis, s.tasks[i].ask.value), after.result)
  {
    RetargetKeeps(rules, s.cache, s.tasks[i].phase.basis);
  }

  lemma {:induction false} RunKeeps(rules: Rules, s: System, events: seq<Event>)
    requires Inv(rules, s) && RunOk(rules, s, events)
    ensures Inv(rules, Run(rules, s, events))
    ensures s.policy.Some? ==> Run(rules, s, events).policy.Some?
    ensures Run(rules, s, events).cache.capacity == s.cache.capacity
    decreases |events|
  {
    if events != [] {
      StepKeeps(rules, s, events[0]);
      RunKeeps(rules, Next(rules, s, events[0]), events[1..]);
    }
  }

  /** Over every interleaving, cached results stay decisions at the cache's basis and within capacity. */
  lemma ReachableIsSafe(rules: Rules, capacity: nat, s: System)
    requires Reachable(rules, capacity, s)
    ensures Inv(rules, s) && s.cache.capacity == capacity
  {
    var events :| RunOk(rules, Initial(capacity), events) && Run(rules, Initial(capacity), events) == s;
    RunKeeps(rules, Initial(capacity), events);
  }

  /** Every answer is the decision of the policy its request held, and a fresh one held none older than its arrival. */
  ghost predicate AnswersRight(rules: Rules, s: System) {
    forall i :: 0 <= i < |s.tasks| && s.tasks[i].phase.Answered? ==>
      && s.tasks[i].ask.Some?
      && s.tasks[i].phase.result == rules.decide(s.tasks[i].phase.basis, s.tasks[i].ask.value)
      && s.tasks[i].phase.basis <= s.source && (s.tasks[i].live ==> s.tasks[i].arrivedAt <= s.tasks[i].phase.basis)
  }

  /** Without a cache every result is a request's own. */
  ghost predicate Uncached(rules: Rules, s: System) {
    && s.cache.capacity == 0
    && forall i :: 0 <= i < |s.tasks| ==> OwnResult(rules, s.tasks[i])
  }

  predicate OwnResult(rules: Rules, t: Task) {
    t.phase.Evaluated? || t.phase.Answered? ==>
      t.ask.Some? && t.phase.result == rules.decide(t.phase.basis, t.ask.value)
  }

  lemma {:induction false} UncachedRun(rules: Rules, s: System, events: seq<Event>)
    requires Uncached(rules, s) && RunOk(rules, s, events)
    ensures Uncached(rules, Run(rules, s, events))
    decreases |events|
  {
    hide Put, Retarget;
    if events != [] {
      UncachedStep(rules, s, events[0]);
      UncachedRun(rules, Next(rules, s, events[0]), events[1..]);
    }
  }

  lemma UncachedStep(rules: Rules, s: System, e: Event)
    requires Uncached(rules, s) && Enabled(s, e)
    ensures Uncached(rules, Next(rules, s, e))
  {}

  lemma UncachedIsRight(rules: Rules, s: System)
    requires Reachable(rules, 0, s)
    ensures AnswersRight(rules, s)
  {
    hide Next, Enabled;
    ReachableIsSafe(rules, 0, s);
    var events :| RunOk(rules, Initial(0), events) && Run(rules, Initial(0), events) == s;
    UncachedRun(rules, Initial(0), events);
  }

  /** Every interleaving answers rightly exactly when there is no cache or cache keys determine decisions. */
  lemma AnswersAreRight(rules: Rules, capacity: nat)
    ensures (forall s :: Reachable(rules, capacity, s) ==> AnswersRight(rules, s))
            <==> capacity == 0 || KeysDetermine(rules)
  {
    hide Reachable, AnswersRight;
    if capacity == 0 || KeysDetermine(rules) {
      forall s | Reachable(rules, capacity, s) ensures AnswersRight(rules, s) {
        if capacity == 0 {
          UncachedIsRight(rules, s);
        } else {
          KeyedIsRight(rules, capacity, s);
        }
      }
    } else {
      var b, r, q :| rules.keyOf(b, r) == rules.keyOf(b, q) && rules.decide(b, r) != rules.decide(b, q);
      var s := Collision(rules, capacity, b, r, q);
    }
  }

  lemma KeyedIsRight(rules: Rules, capacity: nat, s: System)
    requires KeysDetermine(rules) && Reachable(rules, capacity, s)
    ensures AnswersRight(rules, s)
  {
    ReachableIsSafe(rules, capacity, s);
  }

  lemma ReachTo(rules: Rules, capacity: nat, s: System, e: Event, t: System) returns (next: System)
    requires Reachable(rules, capacity, s) && Enabled(s, e) && Next(rules, s, e) == t
    ensures next == t && Reachable(rules, capacity, next)
  {
    ReachNext(rules, capacity, s, e);
    next := t;
  }

  /** A request that finds no policy and loads the one at `b`. */
  function Asking(capacity: nat, b: nat, r: Request, policy: Option<nat>, phase: Phase): System {
    System(b, policy, Cache(if phase.Holding? then b else 0, capacity, map[]), [Task(Some(r), false, b, phase)])
  }

  lemma FirstRefresh(rules: Rules, capacity: nat, b: nat, r: Request) returns (s: System)
    ensures s == Asking(capacity, b, r, Some(b), Holding(b)) && Reachable(rules, capacity, s)
  {
    hide Reachable;
    ReachInitial(rules, capacity);
    s := ReachTo(rules, capacity, Initial(capacity), Commit(b), Initial(capacity).(source := b));
    s := ReachTo(rules, capacity, s, Spawn(Some(r), false), Asking(capacity, b, r, None, Arrived));
    s := ReachTo(rules, capacity, s, Pin(0), Asking(capacity, b, r, None, Refreshing));
    s := ReachTo(rules, capacity, s, Snapshot(0), Asking(capacity, b, r, None, Snapshotted(b)));
    s := ReachTo(rules, capacity, s, Compare(0), Asking(capacity, b, r, None, Compiling(b)));
    s := ReachTo(rules, capacity, s, Compile(0), Asking(capacity, b, r, None, Compiled(b)));
    s := ReachTo(rules, capacity, s, Swap(0), Asking(capacity, b, r, Some(b), Installed(b)));
    s := ReachTo(rules, capacity, s, Settle(0), Asking(capacity, b, r, Some(b), Holding(b)));
  }

  lemma FirstAnswer(rules: Rules, capacity: nat, b: nat, r: Request) returns (s: System)
    requires capacity > 0
    ensures s == System(b, Some(b), Cache(b, capacity, map[rules.keyOf(b, r) := rules.decide(b, r)]),
                        [Task(Some(r), false, b, Answered(b, rules.decide(b, r)))])
    ensures Reachable(rules, capacity, s)
  {
    hide Reachable;
    s := FirstRefresh(rules, capacity, b, r);
    var d := rules.decide(b, r);
    s := ReachTo(rules, capacity, s, Lookup(0), s.(tasks := [Task(Some(r), false, b, Missed(b))]));
    s := ReachTo(rules, capacity, s, Evaluate(0), s.(tasks := [Task(Some(r), false, b, Evaluated(b, d))]));
    s := ReachTo(rules, capacity, s, Remember(0),
                 System(b, Some(b), Cache(b, capacity, map[rules.keyOf(b, r) := d]),
                        [Task(Some(r), false, b, Answered(b, d))]));
  }

  /** Two requests that share a key: the second is served what the first was decided. */
  lemma Collision(rules: Rules, capacity: nat, b: nat, r: Request, q: Request) returns (s: System)
    requires capacity > 0 && rules.keyOf(b, r) == rules.keyOf(b, q) && rules.decide(b, r) != rules.decide(b, q)
    ensures Reachable(rules, capacity, s) && !AnswersRight(rules, s)
  {
    hide Reachable;
    s := FirstAnswer(rules, capacity, b, r);
    var d, first := rules.decide(b, r), s.tasks;
    s := ReachTo(rules, capacity, s, Spawn(Some(q), false),
                 s.(tasks := first + [Task(Some(q), false, b, Arrived)]));
    s := ReachTo(rules, capacity, s, Pin(1), s.(tasks := first + [Task(Some(q), false, b, Holding(b))]));
    s := ReachTo(rules, capacity, s, Lookup(1), s.(tasks := first + [Task(Some(q), false, b, Answered(b, d))]));
    assert s.tasks[1].phase.Answered?;
  }

  /** A failed refresh leaves the policy and the cache alone, and once loaded a policy never goes away. */
  lemma FailureIsHarmless(rules: Rules, s: System, e: Event)
    requires Enabled(s, e)
    ensures e.Fail? ==> Next(rules, s, e).policy == s.policy && Next(rules, s, e).cache == s.cache
    ensures s.policy.Some? ==> Next(rules, s, e).policy.Some?
  {}

  // ---------------------------------------------------------------------
  // Does the policy only move forward?
  // ---------------------------------------------------------------------

  predicate Reading(t: Task) { t.phase.Snapshotted? || t.phase.Compiling? || t.phase.Compiled? }

  function Racing(capacity: nat, source: nat, policy: Option<nat>, slow: Phase, fast: Phase): System {
    System(source, policy, Cache(0, capacity, map[]), [Task(None, true, 1, slow), Task(None, true, 1, fast)])
  }

  /** Two refreshes in flight, the slow one having read basis 1. */
  lemma Race(rules: Rules, capacity: nat) returns (s: System)
    ensures s == Racing(capacity, 1, None, Compiled(1), Arrived) && Reachable(rules, capacity, s)
  {
    hide Reachable;
    ReachInitial(rules, capacity);
    s := ReachTo(rules, capacity, Initial(capacity), Commit(1), Initial(capacity).(source := 1));
    s := ReachTo(rules, capacity, s, Spawn(None, true), s.(tasks := [Task(None, true, 1, Arrived)]));
    s := ReachTo(rules, capacity, s, Spawn(None, true), Racing(capacity, 1, None, Arrived, Arrived));
    s := ReachTo(rules, capacity, s, Pin(0), Racing(capacity, 1, None, Refreshing, Arrived));
    s := ReachTo(rules, capacity, s, Snapshot(0), Racing(capacity, 1, None, Snapshotted(1), Arrived));
    s := ReachTo(rules, capacity, s, Compare(0), Racing(capacity, 1, None, Compiling(1), Arrived));
    s := ReachTo(rules, capacity, s, Compile(0), Racing(capacity, 1, None, Compiled(1), Arrived));
  }

  /** When they overlap it can go back: a refresh that read the older basis swaps after one that read the newer. */
  lemma OverlapCanRegress(rules: Rules, capacity: nat) returns (s: System, i: nat)
    ensures Reachable(rules, capacity, s) && Enabled(s, Swap(i))
    ensures s.policy == Some(2) && Next(rules, s, Swap(i)).policy == Some(1)
  {
    hide Reachable;
    s := Race(rules, capacity);
    i := 0;
    s := ReachTo(rules, capacity, s, Commit(2), Racing(capacity, 2, None, Compiled(1), Arrived));
    s := ReachTo(rules, capacity, s, Pin(1), Racing(capacity, 2, None, Compiled(1), Refreshing));
    s := ReachTo(rules, capacity, s, Snapshot(1), Racing(capacity, 2, None, Compiled(1), Snapshotted(2)));
    s := ReachTo(rules, capacity, s, Compare(1), Racing(capacity, 2, None, Compiled(1), Compiling(2)));
    s := ReachTo(rules, capacity, s, Compile(1), Racing(capacity, 2, None, Compiled(1), Compiled(2)));
    s := ReachTo(rules, capacity, s, Swap(1), Racing(capacity, 2, Some(2), Compiled(1), Installed(2)));
  }
}
