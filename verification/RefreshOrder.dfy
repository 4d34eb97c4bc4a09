/**
 * When the policy in use moves back, over whole runs of the authorizer.
 *
 * A refresh reads the source, compiles, and swaps its policy in. It can only put an older policy back if another
 * refresh read a later basis and swapped in between.
 */
module RefreshOrder {
  import opened Options
  import opened Authorizer

  // ---------------------------------------------------------------------
  // The states of a run
  // ---------------------------------------------------------------------

  /** Every state a run goes through, the first and the last included. */
  function States(rules: Rules, s: System, events: seq<Event>): seq<System>
    requires RunOk(rules, s, events)
    decreases |events|
  {
    if events == [] then [s] else [s] + States(rules, Next(rules, s, events[0]), events[1..])
  }

  ghost predicate Trace(rules: Rules, states: seq<System>, events: seq<Event>) {
    && |states| == |events| + 1
    && forall k :: 0 <= k < |events| ==> StepAt(rules, states, events, k)
  }

  ghost predicate StepAt(rules: Rules, states: seq<System>, events: seq<Event>, k: nat)
    requires |states| == |events| + 1 && k < |events|
  {
    Enabled(states[k], events[k]) && states[k + 1] == Next(rules, states[k], events[k])
  }

  lemma {:induction false} StatesTrace(rules: Rules, s: System, events: seq<Event>)
    requires RunOk(rules, s, events)
    ensures Trace(rules, States(rules, s, events), events) && States(rules, s, events)[0] == s
    ensures States(rules, s, events)[|events|] == Run(rules, s, events)
    decreases |events|
  {
    hide Next, Enabled;
    if events != [] {
      var states, rest := States(rules, s, events), States(rules, Next(rules, s, events[0]), events[1..]);
      StatesTrace(rules, Next(rules, s, events[0]), events[1..]);
      forall k | 0 <= k < |events| ensures StepAt(rules, states, events, k) {
        if k > 0 { assert StepAt(rules, rest, events[1..], k - 1); }
      }
    }
  }

  // ---------------------------------------------------------------------
  // What one step does to reads and to the policy
  // ---------------------------------------------------------------------

  /** Past the point where the source is read. */
  predicate PastReading(t: Task) { !t.phase.Arrived? && !t.phase.Refreshing? }

  lemma StepMoves(rules: Rules, s: System, e: Event)
    requires Enabled(s, e)
    ensures s.source <= Next(rules, s, e).source && |s.tasks| <= |Next(rules, s, e).tasks|
    ensures Next(rules, s, e).policy == if e.Swap? then Some(s.tasks[e.i].phase.read) else s.policy
  {}

  lemma StepReads(rules: Rules, s: System, e: Event, i: nat)
    requires Enabled(s, e) && i < |Next(rules, s, e).tasks|
    ensures e == Snapshot(i) ==> Next(rules, s, e).tasks[i].phase == Snapshotted(s.source)
    ensures e != Snapshot(i) && Reading(Next(rules, s, e).tasks[i]) ==>
              i < |s.tasks| && Reading(s.tasks[i]) && s.tasks[i].phase.read == Next(rules, s, e).tasks[i].phase.read
    ensures i < |s.tasks| && PastReading(s.tasks[i]) ==> PastReading(Next(rules, s, e).tasks[i]) && e != Snapshot(i)
  {}

  // ---------------------------------------------------------------------
  // Over a run
  // ---------------------------------------------------------------------

  lemma {:induction false} SourceRises(rules: Rules, states: seq<System>, events: seq<Event>, a: nat, b: nat)
    requires Trace(rules, states, events) && a <= b < |states|
    ensures states[a].source <= states[b].source && |states[a].tasks| <= |states[b].tasks|
    decreases b - a
  {
    hide Next, Enabled;
    if a < b {
      assert StepAt(rules, states, events, b - 1);
      StepMoves(rules, states[b - 1], events[b - 1]);
      SourceRises(rules, states, events, a, b - 1);
    }
  }

  /** Whoever is reading read the source at a snapshot of its own. */
  lemma {:induction false} ReadingBegan(rules: Rules, states: seq<System>, events: seq<Event>, k: nat, i: nat)
    returns (a: nat)
    requires Trace(rules, states, events) && states[0].tasks == [] && k < |states|
    requires i < |states[k].tasks| && Reading(states[k].tasks[i])
    ensures a < k && events[a] == Snapshot(i) && states[a].source == states[k].tasks[i].phase.read
    decreases k
  {
    hide Next, Enabled;
    assert StepAt(rules, states, events, k - 1);
    StepReads(rules, states[k - 1], events[k - 1], i);
    if events[k - 1] == Snapshot(i) {
      a := k - 1;
    } else {
      a := ReadingBegan(rules, states, events, k - 1, i);
    }
  }

  /** A snapshot is taken once, and what it read stays until the swap. */
  lemma {:induction false} ReadStays(rules: Rules, states: seq<System>, events: seq<Event>, a: nat, k: nat, i: nat)
    requires Trace(rules, states, events) && a < k < |states| && events[a] == Snapshot(i)
    ensures i < |states[k].tasks| && PastReading(states[k].tasks[i])
    ensures Reading(states[k].tasks[i]) ==> states[k].tasks[i].phase.read == states[a].source
    decreases k
  {
    hide Next;
    assert StepAt(rules, states, events, k - 1);
    StepMoves(rules, states[k - 1], events[k - 1]);
    if a < k - 1 { ReadStays(rules, states, events, a, k - 1, i); }
    StepReads(rules, states[k - 1], events[k - 1], i);
  }

  /** The policy in use was swapped in by some refresh. */
  lemma {:induction false} PolicyWasSwapped(rules: Rules, states: seq<System>, events: seq<Event>, k: nat)
    returns (b: nat, j: nat)
    requires Trace(rules, states, events) && states[0].policy == None && k < |states| && states[k].policy.Some?
    ensures b < k && events[b] == Swap(j) && Enabled(states[b], Swap(j))
    ensures states[b].tasks[j].phase.read == states[k].policy.value
    decreases k
  {
    hide Next;
    assert StepAt(rules, states, events, k - 1);
    StepMoves(rules, states[k - 1], events[k - 1]);
    if events[k - 1].Swap? {
      b, j := k - 1, events[k - 1].i;
    } else {
      b, j := PolicyWasSwapped(rules, states, events, k - 1);
    }
  }

  // ---------------------------------------------------------------------
  // Moving back
  // ---------------------------------------------------------------------

  /** No later policy is ever replaced by an earlier one. */
  ghost predicate NeverBack(states: seq<System>) {
    forall k :: 0 <= k < |states| - 1 && states[k].policy.Some? ==>
      states[k + 1].policy.Some? && states[k].policy.value <= states[k + 1].policy.value
  }

  /**
   * Refresh `i` is overtaken: it read at `a`; at `d` refresh `j` read a later basis, at `b` swapped it in, and at `c`
   * `i` swapped its own.
   */
  ghost predicate OvertakenAt(states: seq<System>, events: seq<Event>, i: nat, j: nat, a: nat, d: nat, b: nat, c: nat)
    requires |states| == |events| + 1
  {
    && a < d < b < c < |events| && states[a].source < states[d].source
    && events[a] == Snapshot(i) && events[d] == Snapshot(j) && events[b] == Swap(j) && events[c] == Swap(i)
  }

  ghost predicate Overtaken(states: seq<System>, events: seq<Event>)
    requires |states| == |events| + 1
  {
    exists i: nat, j: nat, a: nat, d: nat, b: nat, c: nat :: OvertakenAt(states, events, i, j, a, d, b, c)
  }

  lemma {:induction false} PolicyRises(states: seq<System>, a: nat, b: nat)
    requires NeverBack(states) && a <= b < |states| && states[a].policy.Some?
    ensures states[b].policy.Some? && states[a].policy.value <= states[b].policy.value
    decreases b - a
  {
    if a < b { PolicyRises(states, a, b - 1); }
  }

  lemma OvertakingMovesBack(rules: Rules, states: seq<System>, events: seq<Event>,
                            i: nat, j: nat, a: nat, d: nat, b: nat, c: nat)
    requires Trace(rules, states, events) && OvertakenAt(states, events, i, j, a, d, b, c)
    ensures !NeverBack(states)
  {
    hide Next;
    assert StepAt(rules, states, events, b) && StepAt(rules, states, events, c);
    StepMoves(rules, states[b], events[b]); StepMoves(rules, states[c], events[c]);
    ReadStays(rules, states, events, d, b, j);
    ReadStays(rules, states, events, a, c, i);
    if NeverBack(states) { PolicyRises(states, b + 1, c + 1); }
  }

  lemma MovingBackIsOvertaking(rules: Rules, states: seq<System>, events: seq<Event>, c: nat)
    requires Trace(rules, states, events) && states[0].tasks == [] && states[0].policy == None && c < |events|
    requires states[c].policy.Some?
    requires states[c + 1].policy.None? || states[c + 1].policy.value < states[c].policy.value
    ensures Overtaken(states, events)
  {
    hide Next;
    assert StepAt(rules, states, events, c);
    StepMoves(rules, states[c], events[c]);
    var i := events[c].i;
    var a := ReadingBegan(rules, states, events, c, i);
    var b, j := PolicyWasSwapped(rules, states, events, c);
    var d := ReadingBegan(rules, states, events, b, j);
    if d <= a { SourceRises(rules, states, events, d, a); }
    assert OvertakenAt(states, events, i, j, a, d, b, c);
  }

  /** The policy in use never moves back over a run exactly when no refresh in it is overtaken. */
  lemma NeverBackIsExact(rules: Rules, capacity: nat, events: seq<Event>)
    requires RunOk(rules, Initial(capacity), events)
    ensures |States(rules, Initial(capacity), events)| == |events| + 1
    ensures NeverBack(States(rules, Initial(capacity), events))
            <==> !Overtaken(States(rules, Initial(capacity), events), events)
  {
    hide Next, States;
    var states := States(rules, Initial(capacity), events);
    StatesTrace(rules, Initial(capacity), events);
    if Overtaken(states, events) {
      var i: nat, j: nat, a: nat, d: nat, b: nat, c: nat :| OvertakenAt(states, events, i, j, a, d, b, c);
      OvertakingMovesBack(rules, states, events, i, j, a, d, b, c);
    }
    if !NeverBack(states) {
      var c :| 0 <= c < |states| - 1 && states[c].policy.Some?
               && (states[c + 1].policy.None? || states[c + 1].policy.value < states[c].policy.value);
      MovingBackIsOvertaking(rules, states, events, c);
    }
  }

  // ---------------------------------------------------------------------
  // A discipline that suffices
  // ---------------------------------------------------------------------

  /** No two refreshes are between reading the source and swapping. */
  ghost predicate Serial(s: System) {
    forall i, j :: 0 <= i < j < |s.tasks| ==> !(Reading(s.tasks[i]) && Reading(s.tasks[j]))
  }

  /** A refresh that swaps was reading all along since its snapshot. */
  lemma {:induction false} ReadingAllAlong(rules: Rules, states: seq<System>, events: seq<Event>, a: nat, k: nat,
                                           c: nat, i: nat)
    requires Trace(rules, states, events) && a < k <= c < |states| && events[a] == Snapshot(i)
    requires i < |states[c].tasks| && Reading(states[c].tasks[i])
    ensures i < |states[k].tasks| && Reading(states[k].tasks[i])
    decreases c - k
  {
    hide Next;
    if k < c {
      ReadStays(rules, states, events, a, c - 1, i);
      assert StepAt(rules, states, events, c - 1);
      StepReads(rules, states[c - 1], events[c - 1], i);
      ReadingAllAlong(rules, states, events, a, k, c - 1, i);
    }
  }

  /** When no state of a run has two such refreshes, the policy in use only ever becomes newer. */
  lemma SerialRefreshMovesForward(rules: Rules, capacity: nat, events: seq<Event>)
    requires RunOk(rules, Initial(capacity), events)
    requires forall s :: s in States(rules, Initial(capacity), events) ==> Serial(s)
    ensures NeverBack(States(rules, Initial(capacity), events))
  {
    hide Next, States, NeverBack, Serial;
    var states := States(rules, Initial(capacity), events);
    NeverBackIsExact(rules, capacity, events);
    StatesTrace(rules, Initial(capacity), events);
    if Overtaken(states, events) {
      var i: nat, j: nat, a: nat, d: nat, b: nat, c: nat :| OvertakenAt(states, events, i, j, a, d, b, c);
      assert states[d + 1] in states;
      BothReading(rules, states, events, i, j, a, d, b, c);
    }
  }

  lemma BothReading(rules: Rules, states: seq<System>, events: seq<Event>, i: nat, j: nat, a: nat, d: nat, b: nat,
                    c: nat)
    requires Trace(rules, states, events) && OvertakenAt(states, events, i, j, a, d, b, c)
    ensures !Serial(states[d + 1])
  {
    hide Next;
    assert StepAt(rules, states, events, b) && StepAt(rules, states, events, c);
    ReadingAllAlong(rules, states, events, a, d + 1, c, i);
    ReadingAllAlong(rules, states, events, d, d + 1, b, j);
    ReadStays(rules, states, events, a, d, i);
    assert StepAt(rules, states, events, d);
  }
}
