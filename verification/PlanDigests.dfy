/** How the digest's input is written: sort, then field by field into the encoder. */
module PlanDigests {
  import opened Bytes
  import opened Canonical
  import opened Plans
  import opened StableSort

  function StepKey(s: PlanStep): ByteString { s.key }

  // ---------------------------------------------------------------------
  // Sorting steps sorts what they say
  // ---------------------------------------------------------------------

  lemma {:induction false} NormalsAppend(a: seq<PlanStep>, b: seq<PlanStep>)
    ensures Normals(a + b) == Normals(a) + Normals(b)
    decreases |b|
  {
    hide Normal;
    if b == [] {
      assert a + b == a;
    } else {
      NormalsAppend(a, b[..|b| - 1]);
      assert (a + b)[..|a + b| - 1] == a + b[..|b| - 1];
    }
  }

  lemma {:induction false} SamePlace(steps: seq<PlanStep>, x: PlanStep)
    ensures Place(LogicalKey, Normals(steps), Normal(x)) == Place(StepKey, steps, x)
    decreases |steps|
  {
    hide SortBy, AckNames, Less;
    if steps != [] {
      SamePlace(steps[..|steps| - 1], x);
      assert Normals(steps)[..|Normals(steps)| - 1] == Normals(steps[..|steps| - 1]);
      NormalsAt(steps);
    }
  }

  lemma InsertNormal(steps: seq<PlanStep>, x: PlanStep)
    ensures Normals(Insert(StepKey, steps, x)) == Insert(LogicalKey, Normals(steps), Normal(x))
  {
    hide Normal, Normals, Place;
    var i := Place(StepKey, steps, x);
    SamePlace(steps, x);
    NormalsAppend(steps[..i] + [x], steps[i..]);
    NormalsAppend(steps[..i], [x]);
    NormalsAppend(steps[..i], steps[i..]);
    assert steps == steps[..i] + steps[i..];
    NormalsAt([x]); NormalsAt(steps[..i]);
    assert Normals([x]) == [Normal(x)];
  }

  lemma {:induction false} SortNormals(steps: seq<PlanStep>)
    ensures Normals(SortBy(StepKey, steps)) == SortBy(LogicalKey, Normals(steps))
    decreases |steps|
  {
    hide Normal, Insert;
    if steps != [] {
      var front, x := steps[..|steps| - 1], steps[|steps| - 1];
      SortNormals(front);
      InsertNormal(SortBy(StepKey, front), x);
      assert Normals(steps)[..|Normals(steps)| - 1] == Normals(front);
    }
  }

  // ---------------------------------------------------------------------
  // Fields one after another
  // ---------------------------------------------------------------------

  lemma TailRest(l: Logical, rest: seq<ByteString>)
    ensures StepTail(l, rest) == [ClassName(l.class_), RiskName(l.risk)] + List(l.acks, [])
                                 + Optional(BlockedName(l.blocked), []) + List(l.dependsOn, []) + rest
  {
    hide List, Optional, ClassName, RiskName, BlockedName;
    ListRest(l.dependsOn, rest);
    OptionalRest(BlockedName(l.blocked), List(l.dependsOn, rest));
    ListRest(l.acks, Optional(BlockedName(l.blocked), List(l.dependsOn, rest)));
  }

  lemma StepRest(l: Logical, rest: seq<ByteString>)
    ensures StepFields(l, rest) == StepFields(l, []) + rest
    ensures StepFields(l, []) == [l.key, l.ident, KindName(l.kind)] + Optional(l.installed, [])
                                 + Optional(l.desired, []) + StepTail(l, [])
  {
    hide List, Optional, ClassName, RiskName, BlockedName, KindName;
    TailRest(l, rest); TailRest(l, []);
    OptionalRest(l.desired, StepTail(l, rest)); OptionalRest(l.desired, StepTail(l, []));
    OptionalRest(l.installed, Optional(l.desired, StepTail(l, rest)));
    OptionalRest(l.installed, Optional(l.desired, StepTail(l, [])));
    assert StepTail(l, rest) == StepTail(l, []) + rest;
  }

  lemma {:induction false} StepsRest(ls: seq<Logical>, rest: seq<ByteString>)
    ensures StepsFields(ls, rest) == StepsFields(ls, []) + rest
    decreases |ls|
  {
    hide StepFields;
    if ls != [] {
      StepsRest(ls[1..], rest);
      StepRest(ls[0], StepsFields(ls[1..], rest));
      StepRest(ls[0], StepsFields(ls[1..], []));
    }
  }

  lemma {:induction false} StepsAppend(ls: seq<Logical>, l: Logical)
    ensures StepsFields(ls + [l], []) == StepsFields(ls, []) + StepFields(l, [])
    decreases |ls|
  {
    hide StepFields;
    if ls == [] {
      assert [] + [l] == [l] && [l][1..] == [];
    } else {
      StepsAppend(ls[1..], l);
      assert (ls + [l])[1..] == ls[1..] + [l];
      StepRest(ls[0], StepsFields(ls[1..] + [l], []));
      StepRest(ls[0], StepsFields(ls[1..], []));
    }
  }

  // ---------------------------------------------------------------------
  // Writing
  // ---------------------------------------------------------------------

  method NamesOf(acks: seq<AckCode>) returns (names: seq<ByteString>)
    ensures names == AckNames(acks)
  {
    names := [];
    for i := 0 to |acks|
      invariant names == AckNames(acks[..i])
    {
      names := names + [AckName(acks[i])];
      assert acks[..i + 1][..i] == acks[..i];
    }
    assert acks[..|acks|] == acks;
  }

  method WriteTail(enc: Encoder, step: PlanStep)
    modifies enc
    ensures enc.out == old(enc.out) + Fields(StepTail(Normal(step), []))
  {
    hide Fields, List, Optional, ClassName, RiskName, BlockedName, SortBy, AckNames;
    ghost var l := Normal(step);
    enc.WriteFields([ClassName(step.class_), RiskName(step.risk)]);
    var names := NamesOf(step.acks);
    var acks := Sort(Itself, names);
    enc.WriteList(acks);
    enc.WriteOptional(BlockedName(step.blocked));
    var depends := Sort(Itself, step.dependsOn);
    enc.WriteList(depends);
    ghost var a, b, c, d := [ClassName(step.class_), RiskName(step.risk)], List(acks, []),
        Optional(BlockedName(step.blocked), []), List(depends, []);
    FieldsAppend(a, b);
    FieldsAppend(a + b, c);
    FieldsAppend(a + b + c, d);
    TailRest(l, []);
    assert StepTail(l, []) == a + b + c + d;
  }

  method WriteStep(enc: Encoder, step: PlanStep)
    modifies enc
    ensures enc.out == old(enc.out) + Fields(StepFields(Normal(step), []))
  {
    hide Fields, Optional, KindName, StepTail, StepFields, SortBy, AckNames;
    ghost var l := Normal(step);
    enc.WriteFields([step.key, step.ident, KindName(step.kind)]);
    enc.WriteOptional(step.installed);
    enc.WriteOptional(step.desired);
    WriteTail(enc, step);
    ghost var a, b, c, d := [step.key, step.ident, KindName(step.kind)], Optional(step.installed, []),
        Optional(step.desired, []), StepTail(l, []);
    FieldsAppend(a, b);
    FieldsAppend(a + b, c);
    FieldsAppend(a + b + c, d);
    StepRest(l, []);
  }

  lemma PlanInParts(p: SchemaPlan, head: seq<ByteString>, ls: seq<Logical>, us: seq<ByteString>)
    requires ls == SortBy(LogicalKey, Normals(p.steps)) && us == SortBy(Itself, p.unmanaged)
    requires head == [Ascii("corium.schema-plan"), Count(PLAN_FORMAT_VERSION), p.desiredDigest, p.installedFingerprint,
                      PruneName(p.prune), Count(|ls|)]
    ensures Preimage(p) == Fields(head) + Fields(StepsFields(ls, [])) + Fields(List(us, []))
  {
    hide Fields, List, StepsFields, Ascii, Count, PruneName, SortBy, Normals;
    StepsRest(ls, List(us, []));
    assert PlanFields(p) == head + (StepsFields(ls, []) + List(us, []));
    FieldsAppend(head, StepsFields(ls, []) + List(us, []));
    FieldsAppend(StepsFields(ls, []), List(us, []));
  }

  method WriteSteps(enc: Encoder, steps: seq<PlanStep>)
    modifies enc
    ensures enc.out == old(enc.out) + Fields(StepsFields(Normals(steps), []))
  {
    hide Normal, StepFields, Fields, StepsFields, Normals;
    NoSteps();
    assert steps[..0] == [];
    for i := 0 to |steps|
      invariant enc.out == old(enc.out) + Fields(StepsFields(Normals(steps[..i]), []))
    {
      WriteStep(enc, steps[i]);
      OneMoreStep(steps, i);
    }
    assert steps[..|steps|] == steps;
  }

  lemma NoSteps()
    ensures Fields(StepsFields(Normals([]), [])) == []
  {}

  lemma OneMoreStep(steps: seq<PlanStep>, i: nat)
    requires i < |steps|
    ensures Fields(StepsFields(Normals(steps[..i + 1]), []))
            == Fields(StepsFields(Normals(steps[..i]), [])) + Fields(StepFields(Normal(steps[i]), []))
  {
    hide Normal, StepFields, Fields, StepsFields;
    StepsAppend(Normals(steps[..i]), Normal(steps[i]));
    assert steps[..i + 1][..i] == steps[..i];
    FieldsAppend(StepsFields(Normals(steps[..i]), []), StepFields(Normal(steps[i]), []));
  }

  /** `SchemaPlan::digest`, up to the hash. */
  method Digested(p: SchemaPlan) returns (bytes: ByteString)
    ensures bytes == Preimage(p)
  {
    hide Fields, List, StepsFields, Ascii, Count, PruneName, SortBy, Normals, Preimage;
    var enc := new Encoder();
    var ordered := Sort(StepKey, p.steps);
    ghost var ls := SortBy(LogicalKey, Normals(p.steps));
    SortNormals(p.steps);
    NormalsAt(ordered);
    var head := [Ascii("corium.schema-plan"), Count(PLAN_FORMAT_VERSION), p.desiredDigest, p.installedFingerprint,
                 PruneName(p.prune), Count(|ordered|)];
    enc.WriteFields(head);
    WriteSteps(enc, ordered);
    var unmanaged := Sort(Itself, p.unmanaged);
    enc.WriteList(unmanaged);
    PlanInParts(p, head, ls, unmanaged);
    bytes := enc.out;
  }
}
