/** Schema update plans and the bytes their digest hashes. */
module Plans {
  import opened Bytes
  import opened Canonical
  import opened Options
  import opened StableSort

  const PLAN_FORMAT_VERSION: nat := 1

  // ---------------------------------------------------------------------
  // Plans
  // ---------------------------------------------------------------------

  datatype ExecutionClass = Additive | ValidateReindex | Rewrite | Destructive

  datatype Risk = Low | Medium | High

  datatype AckCode =
    ComponentEnable | ComponentDisable | UniqueModeChange | NoHistoryEnable | NoHistoryDisable | RetireLiveAttribute
    | ProtectionForwardOnly

  datatype SchemaProperty = ValueType | Cardinality | Unique | Index | Component | NoHistory | Doc | Protection

  datatype ChangeKind = Add | Retire | Property(property: SchemaProperty)

  datatype BlockedReason =
    ValueTypeMutation | UniqueDuplicates | CardinalityConflicts | EverProtected | ProtectionConflict

  datatype Observation = Observation(name: ByteString, value: ByteString)

  datatype PlanStep = PlanStep(
    key: ByteString, ident: ByteString, kind: ChangeKind, installed: Option<ByteString>, desired: Option<ByteString>,
    class_: ExecutionClass, risk: Risk, acks: seq<AckCode>, blocked: Option<BlockedReason>, dependsOn: seq<ByteString>,
    summary: ByteString, recipe: seq<ByteString>, observations: seq<Observation>, notes: seq<ByteString>)

  datatype SchemaPlan = SchemaPlan(
    database: ByteString, basisT: u64, schemaGeneration: Option<u64>, desiredDigest: ByteString,
    installedFingerprint: ByteString, prune: bool, steps: seq<PlanStep>, unmanaged: seq<ByteString>,
    notes: seq<ByteString>)

  // ---------------------------------------------------------------------
  // Stable names
  // ---------------------------------------------------------------------

  function ClassName(c: ExecutionClass): ByteString {
    Ascii(match c
          case Additive => "additive"
          case ValidateReindex => "validate-reindex"
          case Rewrite => "rewrite"
          case Destructive => "destructive")
  }

  function RiskName(r: Risk): ByteString {
    Ascii(match r
          case Low => "low"
          case Medium => "medium"
          case High => "high")
  }

  function AckName(a: AckCode): ByteString {
    Ascii(match a
          case ComponentEnable => "component-enable"
          case ComponentDisable => "component-disable"
          case UniqueModeChange => "unique-mode-change"
          case NoHistoryEnable => "no-history-enable"
          case NoHistoryDisable => "no-history-disable"
          case RetireLiveAttribute => "retire-live-attribute"
          case ProtectionForwardOnly => "protection-forward-only")
  }

  function KindName(k: ChangeKind): ByteString {
    Ascii(match k
          case Add => "add"
          case Retire => "retire"
          case Property(p) =>
            match p
            case ValueType => "value-type"
            case Cardinality => "cardinality"
            case Unique => "unique"
            case Index => "index"
            case Component => "component"
            case NoHistory => "no-history"
            case Doc => "doc"
            case Protection => "protection")
  }

  function BlockedName(b: Option<BlockedReason>): Option<ByteString> {
    match b
    case None => None
    case Some(reason) =>
      Some(Ascii(match reason
                 case ValueTypeMutation => "value-type-mutation"
                 case UniqueDuplicates => "unique-duplicates"
                 case CardinalityConflicts => "cardinality-conflicts"
                 case EverProtected => "ever-protected"
                 case ProtectionConflict => "protection-conflict"))
  }

  function PruneName(prune: bool): ByteString { Ascii(if prune then "prune" else "no-prune") }

  /** Stable names tell their members apart: by length, or by the first letter. */
  lemma ClassNamesDiffer(a: ExecutionClass, b: ExecutionClass)
    requires ClassName(a) == ClassName(b)
    ensures a == b
  {
    assert |ClassName(a)| == |ClassName(b)|;
  }

  lemma RiskNamesDiffer(a: Risk, b: Risk)
    requires RiskName(a) == RiskName(b)
    ensures a == b
  {
    assert |RiskName(a)| == |RiskName(b)|;
  }

  lemma AckNamesDiffer(a: AckCode, b: AckCode)
    requires AckName(a) == AckName(b)
    ensures a == b
  {
    assert |AckName(a)| == |AckName(b)| && AckName(a)[0] == AckName(b)[0];
  }

  lemma KindNamesDiffer(a: ChangeKind, b: ChangeKind)
    requires KindName(a) == KindName(b)
    ensures a == b
  {
    assert |KindName(a)| == |KindName(b)| && KindName(a)[0] == KindName(b)[0];
  }

  lemma BlockedNamesDiffer(a: Option<BlockedReason>, b: Option<BlockedReason>)
    requires BlockedName(a) == BlockedName(b)
    ensures a == b
  {
    if a.Some? && b.Some? {
      assert |BlockedName(a).value| == |BlockedName(b).value| && BlockedName(a).value[0] == BlockedName(b).value[0];
    }
  }

  // ---------------------------------------------------------------------
  // What a step says, whatever the order of its lists
  // ---------------------------------------------------------------------

  datatype Logical = Logical(
    key: ByteString, ident: ByteString, kind: ChangeKind, installed: Option<ByteString>, desired: Option<ByteString>,
    class_: ExecutionClass, risk: Risk, acks: seq<ByteString>, blocked: Option<BlockedReason>,
    dependsOn: seq<ByteString>)

  function AckNames(acks: seq<AckCode>): seq<ByteString> {
    if acks == [] then [] else AckNames(acks[..|acks| - 1]) + [AckName(acks[|acks| - 1])]
  }

  function Normal(s: PlanStep): Logical {
    Logical(s.key, s.ident, s.kind, s.installed, s.desired, s.class_, s.risk, SortBy(Itself, AckNames(s.acks)),
            s.blocked, SortBy(Itself, s.dependsOn))
  }

  /** The digested parts of two steps agree, lists up to order. */
  predicate SameStep(a: PlanStep, b: PlanStep) {
    && a.key == b.key && a.ident == b.ident && a.kind == b.kind
    && a.installed == b.installed && a.desired == b.desired && a.class_ == b.class_ && a.risk == b.risk
    && multiset(a.acks) == multiset(b.acks) && a.blocked == b.blocked
    && multiset(a.dependsOn) == multiset(b.dependsOn)
  }

  lemma {:induction false} NamesKeepCounts(acks: seq<AckCode>, a: AckCode)
    ensures multiset(AckNames(acks))[AckName(a)] == multiset(acks)[a]
    decreases |acks|
  {
    hide AckName;
    if acks != [] {
      var front, last := acks[..|acks| - 1], acks[|acks| - 1];
      NamesKeepCounts(front, a);
      assert acks == front + [last];
      if AckName(last) == AckName(a) { AckNamesDiffer(last, a); }
    }
  }

  lemma {:induction false} NamesAreNames(acks: seq<AckCode>, t: ByteString)
    requires t in AckNames(acks)
    ensures exists a :: a in acks && AckName(a) == t
    decreases |acks|
  {
    hide AckName;
    var front, last := acks[..|acks| - 1], acks[|acks| - 1];
    assert last in acks;
    if t != AckName(last) {
      NamesAreNames(front, t);
      var a :| a in front && AckName(a) == t;
      assert a in acks;
    }
  }

  /** Names agree up to order exactly when the codes do. */
  lemma NamesAgree(a: seq<AckCode>, b: seq<AckCode>)
    ensures multiset(AckNames(a)) == multiset(AckNames(b)) <==> multiset(a) == multiset(b)
  {
    hide AckName, AckNames;
    forall c: AckCode ensures multiset(AckNames(a))[AckName(c)] == multiset(a)[c]
                           && multiset(AckNames(b))[AckName(c)] == multiset(b)[c] {
      NamesKeepCounts(a, c); NamesKeepCounts(b, c);
    }
    if multiset(a) == multiset(b) {
      forall t: ByteString ensures multiset(AckNames(a))[t] == multiset(AckNames(b))[t] {
        if t in AckNames(a) { NamesAreNames(a, t); }
        if t in AckNames(b) { NamesAreNames(b, t); }
      }
    } else {
      var c: AckCode :| multiset(a)[c] != multiset(b)[c];
      assert multiset(AckNames(a))[AckName(c)] != multiset(AckNames(b))[AckName(c)];
    }
  }

  lemma NormalAgrees(a: PlanStep, b: PlanStep)
    ensures Normal(a) == Normal(b) <==> SameStep(a, b)
  {
    hide SortBy, AckNames;
    TextsSortAlike(AckNames(a.acks), AckNames(b.acks));
    NamesAgree(a.acks, b.acks);
    TextsSortAlike(a.dependsOn, b.dependsOn);
  }

  // ---------------------------------------------------------------------
  // Fields of a plan
  // ---------------------------------------------------------------------

  /** The fields of a step, in front of what follows. */
  function StepFields(l: Logical, rest: seq<ByteString>): seq<ByteString> {
    [l.key] + ([l.ident] + ([KindName(l.kind)] + Optional(l.installed, Optional(l.desired, StepTail(l, rest)))))
  }

  function StepTail(l: Logical, rest: seq<ByteString>): seq<ByteString> {
    [ClassName(l.class_)]
    + ([RiskName(l.risk)] + List(l.acks, Optional(BlockedName(l.blocked), List(l.dependsOn, rest))))
  }

  function StepsFields(ls: seq<Logical>, rest: seq<ByteString>): seq<ByteString> {
    if ls == [] then rest else StepFields(ls[0], StepsFields(ls[1..], rest))
  }

  function LogicalKey(l: Logical): ByteString { l.key }

  function Normals(steps: seq<PlanStep>): seq<Logical> {
    if steps == [] then [] else Normals(steps[..|steps| - 1]) + [Normal(steps[|steps| - 1])]
  }

  function Header(p: SchemaPlan, rest: seq<ByteString>): seq<ByteString> {
    [Ascii("corium.schema-plan")] + ([Count(PLAN_FORMAT_VERSION)]
    + ([p.desiredDigest] + ([p.installedFingerprint] + ([PruneName(p.prune)] + rest))))
  }

  function PlanFields(p: SchemaPlan): seq<ByteString> {
    var ls := SortBy(LogicalKey, Normals(p.steps));
    Header(p, [Count(|ls|)] + StepsFields(ls, List(SortBy(Itself, p.unmanaged), [])))
  }

  /** The bytes `SchemaPlan::digest` hashes. */
  function Preimage(p: SchemaPlan): ByteString { Fields(PlanFields(p)) }

  // ---------------------------------------------------------------------
  // Fields can be read back
  // ---------------------------------------------------------------------

  lemma TailReads(l: Logical, r: seq<ByteString>, m: Logical, s: seq<ByteString>)
    requires StepTail(l, r) == StepTail(m, s)
    ensures l.class_ == m.class_ && l.risk == m.risk && l.acks == m.acks && l.blocked == m.blocked
    ensures l.dependsOn == m.dependsOn && r == s
  {
    hide ClassName, RiskName, BlockedName, List, Optional;
    var a, b := Optional(BlockedName(l.blocked), List(l.dependsOn, r)),
        Optional(BlockedName(m.blocked), List(m.dependsOn, s));
    OneReads(ClassName(l.class_), [RiskName(l.risk)] + List(l.acks, a), ClassName(m.class_),
             [RiskName(m.risk)] + List(m.acks, b));
    ClassNamesDiffer(l.class_, m.class_);
    OneReads(RiskName(l.risk), List(l.acks, a), RiskName(m.risk), List(m.acks, b));
    RiskNamesDiffer(l.risk, m.risk);
    ListReads(l.acks, a, m.acks, b);
    OptionalReads(BlockedName(l.blocked), List(l.dependsOn, r), BlockedName(m.blocked), List(m.dependsOn, s));
    BlockedNamesDiffer(l.blocked, m.blocked);
    ListReads(l.dependsOn, r, m.dependsOn, s);
  }

  lemma StepReads(l: Logical, r: seq<ByteString>, m: Logical, s: seq<ByteString>)
    requires StepFields(l, r) == StepFields(m, s)
    ensures l == m && r == s
  {
    hide KindName, StepTail, Optional;
    var a, b := Optional(l.desired, StepTail(l, r)), Optional(m.desired, StepTail(m, s));
    var c, d := Optional(l.installed, a), Optional(m.installed, b);
    OneReads(l.key, [l.ident] + ([KindName(l.kind)] + c), m.key, [m.ident] + ([KindName(m.kind)] + d));
    OneReads(l.ident, [KindName(l.kind)] + c, m.ident, [KindName(m.kind)] + d);
    OneReads(KindName(l.kind), c, KindName(m.kind), d);
    KindNamesDiffer(l.kind, m.kind);
    OptionalReads(l.installed, a, m.installed, b);
    OptionalReads(l.desired, StepTail(l, r), m.desired, StepTail(m, s));
    TailReads(l, r, m, s);
  }

  lemma {:induction false} StepsRead(ls: seq<Logical>, r: seq<ByteString>, ms: seq<Logical>, s: seq<ByteString>)
    requires |ls| == |ms| && StepsFields(ls, r) == StepsFields(ms, s)
    ensures ls == ms && r == s
    decreases |ls|
  {
    hide StepFields;
    if ls != [] {
      StepReads(ls[0], StepsFields(ls[1..], r), ms[0], StepsFields(ms[1..], s));
      StepsRead(ls[1..], r, ms[1..], s);
      assert ls == [ls[0]] + ls[1..] && ms == [ms[0]] + ms[1..];
    }
  }

  lemma HeaderReads(p: SchemaPlan, r: seq<ByteString>, q: SchemaPlan, s: seq<ByteString>)
    requires Header(p, r) == Header(q, s)
    ensures p.desiredDigest == q.desiredDigest && p.installedFingerprint == q.installedFingerprint
    ensures p.prune == q.prune && r == s
  {
    hide PruneName, Count, Ascii;
    var h, k := Header(p, r), Header(q, s);
    assert h[2] == p.desiredDigest && h[3] == p.installedFingerprint && h[4] == PruneName(p.prune) && h[5..] == r;
    assert k[2] == q.desiredDigest && k[3] == q.installedFingerprint && k[4] == PruneName(q.prune) && k[5..] == s;
    PruneNamesDiffer(p.prune, q.prune);
  }

  lemma PruneNamesDiffer(a: bool, b: bool)
    requires PruneName(a) == PruneName(b)
    ensures a == b
  {
    assert |PruneName(a)| == |PruneName(b)|;
  }

  // ---------------------------------------------------------------------
  // What the digest covers
  // ---------------------------------------------------------------------

  /**
   * Two plans say the same: the same target, source and pruning, under each key the same steps in the same order, and
   * the same unmanaged attributes.
   */
  ghost predicate SamePlan(p: SchemaPlan, q: SchemaPlan) {
    && p.desiredDigest == q.desiredDigest && p.installedFingerprint == q.installedFingerprint && p.prune == q.prune
    && SameUnder(LogicalKey, Normals(p.steps), Normals(q.steps))
    && multiset(p.unmanaged) == multiset(q.unmanaged)
  }

  /** Equal digest inputs mean plans that say the same, and the other way round: nothing else is covered. */
  lemma PreimageIsExact(p: SchemaPlan, q: SchemaPlan)
    ensures Preimage(p) == Preimage(q) <==> SamePlan(p, q)
  {
    hide Fields, SortBy, Normals, Header, StepsFields, List, SameUnder;
    var ls, ms := SortBy(LogicalKey, Normals(p.steps)), SortBy(LogicalKey, Normals(q.steps));
    SortsAlike(LogicalKey, Normals(p.steps), Normals(q.steps));
    TextsSortAlike(p.unmanaged, q.unmanaged);
    if Preimage(p) == Preimage(q) {
      FieldsAreInjective(PlanFields(p), PlanFields(q));
      var us, vs := SortBy(Itself, p.unmanaged), SortBy(Itself, q.unmanaged);
      var a, b := StepsFields(ls, List(us, [])), StepsFields(ms, List(vs, []));
      HeaderReads(p, [Count(|ls|)] + a, q, [Count(|ms|)] + b);
      OneReads(Count(|ls|), a, Count(|ms|), b);
      CountIsInjective(|ls|, |ms|);
      StepsRead(ls, List(us, []), ms, List(vs, []));
      ListReads(us, [], vs, []);
    }
    if SamePlan(p, q) { HeaderAgrees(p, q, [Count(|ls|)] + StepsFields(ls, List(SortBy(Itself, p.unmanaged), []))); }
  }

  lemma HeaderAgrees(p: SchemaPlan, q: SchemaPlan, rest: seq<ByteString>)
    requires p.desiredDigest == q.desiredDigest && p.installedFingerprint == q.installedFingerprint
             && p.prune == q.prune
    ensures Header(p, rest) == Header(q, rest)
  {}

  /** Where a plan was computed and what was observed never reach the digest. */
  lemma ObservationsAreNotDigested(p: SchemaPlan, q: SchemaPlan)
    requires p.desiredDigest == q.desiredDigest && p.installedFingerprint == q.installedFingerprint
             && p.prune == q.prune
    requires |p.steps| == |q.steps| && forall i :: 0 <= i < |p.steps| ==> SameStep(p.steps[i], q.steps[i])
    requires multiset(p.unmanaged) == multiset(q.unmanaged)
    ensures Preimage(p) == Preimage(q)
  {
    hide Preimage, SameStep;
    NormalsAgree(p.steps, q.steps);
    PreimageIsExact(p, q);
  }

  lemma {:induction false} NormalsAgree(a: seq<PlanStep>, b: seq<PlanStep>)
    requires |a| == |b| && forall i :: 0 <= i < |a| ==> SameStep(a[i], b[i])
    ensures Normals(a) == Normals(b)
    decreases |a|
  {
    hide Normal, SameStep;
    if a != [] {
      NormalAgrees(a[|a| - 1], b[|b| - 1]);
      NormalsAgree(a[..|a| - 1], b[..|b| - 1]);
    }
  }

  ghost predicate KeysDiffer(steps: seq<PlanStep>) {
    forall i, j :: 0 <= i < j < |steps| ==> steps[i].key != steps[j].key
  }

  lemma {:induction false} NormalsAt(steps: seq<PlanStep>)
    ensures |Normals(steps)| == |steps| && forall i :: 0 <= i < |steps| ==> Normals(steps)[i] == Normal(steps[i])
    decreases |steps|
  {
    if steps != [] { NormalsAt(steps[..|steps| - 1]); }
  }

  /** Permuting steps with keys of their own never changes the digest. */
  lemma PermutingKeepsPreimage(p: SchemaPlan, steps: seq<PlanStep>)
    requires KeysDiffer(p.steps) && multiset(steps) == multiset(p.steps)
    ensures Preimage(p.(steps := steps)) == Preimage(p)
  {
    hide Preimage, Normal, SortBy;
    PermutedKeysDiffer(p.steps, steps);
    NormalsAt(p.steps); NormalsAt(steps);
    forall l ensures l in Normals(p.steps) <==> l in Normals(steps) {
      if l in Normals(p.steps) {
        var i :| 0 <= i < |p.steps| && Normal(p.steps[i]) == l;
        assert p.steps[i] in multiset(steps);
      }
      if l in Normals(steps) {
        var i :| 0 <= i < |steps| && Normal(steps[i]) == l;
        assert steps[i] in multiset(p.steps);
      }
    }
    NormalsKeepKeys(p.steps); NormalsKeepKeys(steps);
    PermutationSortsAlike(LogicalKey, Normals(p.steps), Normals(steps));
    SortsAlike(LogicalKey, Normals(p.steps), Normals(steps));
    PreimageIsExact(p.(steps := steps), p);
  }

  lemma NormalsKeepKeys(steps: seq<PlanStep>)
    requires KeysDiffer(steps)
    ensures DistinctKeys(LogicalKey, Normals(steps))
  {
    hide SortBy, AckNames;
    NormalsAt(steps);
  }

  lemma PermutedKeysDiffer(a: seq<PlanStep>, b: seq<PlanStep>)
    requires KeysDiffer(a) && multiset(a) == multiset(b)
    ensures KeysDiffer(b)
  {
    forall i, j | 0 <= i < j < |b| ensures b[i].key != b[j].key {
      if b[i].key == b[j].key {
        assert b[i] in multiset(a) && b[j] in multiset(a);
        assert b[i] == b[j];
        Twice(b, i, j);
        Once(a, b[i]);
      }
    }
  }

  lemma Twice(b: seq<PlanStep>, i: nat, j: nat)
    requires i < j < |b| && b[i] == b[j]
    ensures multiset(b)[b[i]] >= 2
  {
    assert b == b[..i] + [b[i]] + b[i + 1..j] + [b[j]] + b[j + 1..];
  }

  lemma {:induction false} Once(a: seq<PlanStep>, x: PlanStep)
    requires KeysDiffer(a)
    ensures multiset(a)[x] <= 1
    decreases |a|
  {
    if a != [] {
      var front, last := a[..|a| - 1], a[|a| - 1];
      Once(front, x);
      assert a == front + [last];
      if last == x { assert x !in front; }
    }
  }

  /** Steps that share a key are digested in the order given: swapping two that differ shows. */
  lemma SharedKeysKeepOrder(p: SchemaPlan, a: PlanStep, b: PlanStep)
    requires a.key == b.key
    ensures Preimage(p.(steps := [a, b])) == Preimage(p.(steps := [b, a])) <==> SameStep(a, b)
  {
    hide Preimage, Normal, SortBy;
    PreimageIsExact(p.(steps := [a, b]), p.(steps := [b, a]));
    PairUnder(a, b); PairUnder(b, a);
    NormalAgrees(a, b);
  }

  lemma PairUnder(a: PlanStep, b: PlanStep)
    requires a.key == b.key
    ensures Under(LogicalKey, Normals([a, b]), a.key) == [Normal(a), Normal(b)]
    ensures forall k :: k != a.key ==> Under(LogicalKey, Normals([a, b]), k) == []
  {
    hide SortBy, AckNames;
    NormalsAt([a, b]);
    assert Normals([a, b]) == [Normal(a)] + [Normal(b)];
    forall k ensures Under(LogicalKey, Normals([a, b]), k) == if k == a.key then [Normal(a), Normal(b)] else [] {
      UnderAppends(LogicalKey, [Normal(a)], [Normal(b)], k);
      UnderOne(LogicalKey, Normal(a), k); UnderOne(LogicalKey, Normal(b), k);
    }
  }
}
