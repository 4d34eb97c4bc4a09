/** Installed schemas and the bytes their fingerprint hashes. */
module Fingerprints {
  import opened Bytes
  import opened Canonical
  import opened Options
  import Plans
  import Schemas
  import opened Sorting
  import opened Values

  datatype Cardinality = One | Many

  datatype InstalledAttribute = InstalledAttribute(
    ident: ByteString, id: EntityId, valueType: ValueType, cardinality: Cardinality,
    unique: Option<Schemas.Unique>, indexed: bool, isComponent: bool, noHistory: bool, doc: Option<ByteString>,
    retired: bool, protection: Option<ByteString>, everProtected: bool, engine: bool)

  datatype InstalledSchema = InstalledSchema(
    attrs: map<ByteString, InstalledAttribute>, docTracked: bool, generation: Option<u64>)

  /** Attributes are held under their own ident. */
  ghost predicate ByIdent(s: InstalledSchema) { forall k :: k in s.attrs ==> s.attrs[k].ident == k }

  function Collected(attrs: seq<InstalledAttribute>): map<ByteString, InstalledAttribute> {
    if attrs == [] then map[]
    else Collected(attrs[..|attrs| - 1])[attrs[|attrs| - 1].ident := attrs[|attrs| - 1]]
  }

  /** `InstalledSchema::new`. */
  method NewSchema(attrs: seq<InstalledAttribute>) returns (s: InstalledSchema)
    ensures s == InstalledSchema(Collected(attrs), false, None) && ByIdent(s)
  {
    var m: map<ByteString, InstalledAttribute> := map[];
    for i := 0 to |attrs|
      invariant m == Collected(attrs[..i]) && forall k :: k in m ==> m[k].ident == k
    {
      m := m[attrs[i].ident := attrs[i]];
      assert attrs[..i + 1][..i] == attrs[..i];
    }
    assert attrs[..|attrs|] == attrs;
    s := InstalledSchema(m, false, None);
  }

  /** Of attributes with one ident the last given stands. */
  lemma {:induction false} LatestStands(attrs: seq<InstalledAttribute>, i: nat)
    requires i < |attrs| && forall j :: i < j < |attrs| ==> attrs[j].ident != attrs[i].ident
    ensures attrs[i].ident in Collected(attrs) && Collected(attrs)[attrs[i].ident] == attrs[i]
    decreases |attrs|
  {
    if i < |attrs| - 1 { LatestStands(attrs[..|attrs| - 1], i); }
  }

  // ---------------------------------------------------------------------
  // Stable names
  // ---------------------------------------------------------------------

  function TypeName(t: ValueType): ByteString {
    Ascii(match t
          case BoolType => "boolean"
          case LongType => "long"
          case DoubleType => "double"
          case InstantType => "instant"
          case UuidType => "uuid"
          case KeywordType => "keyword"
          case StrType => "string"
          case BytesType => "bytes"
          case RefType => "ref")
  }

  function CardinalityName(c: Cardinality): ByteString { Ascii(if c.One? then "one" else "many") }

  function UniqueName(u: Option<Schemas.Unique>): ByteString {
    Ascii(match u
          case None => "none"
          case Some(Identity) => "identity"
          case Some(UniqueValue) => "value")
  }

  function Flag(b: bool): ByteString { Ascii(if b then "true" else "false") }

  lemma TypeNamesDiffer(a: ValueType, b: ValueType)
    requires TypeName(a) == TypeName(b)
    ensures a == b
  {
    assert |TypeName(a)| == |TypeName(b)| && TypeName(a)[0] == TypeName(b)[0];
  }

  lemma CardinalityNamesDiffer(a: Cardinality, b: Cardinality)
    requires CardinalityName(a) == CardinalityName(b)
    ensures a == b
  {
    assert |CardinalityName(a)| == |CardinalityName(b)|;
  }

  lemma UniqueNamesDiffer(a: Option<Schemas.Unique>, b: Option<Schemas.Unique>)
    requires UniqueName(a) == UniqueName(b)
    ensures a == b
  {
    assert |UniqueName(a)| == |UniqueName(b)|;
  }

  lemma FlagsDiffer(a: bool, b: bool)
    requires Flag(a) == Flag(b)
    ensures a == b
  {
    assert |Flag(a)| == |Flag(b)|;
  }

  // ---------------------------------------------------------------------
  // Fields
  // ---------------------------------------------------------------------

  function AttributeHead(a: InstalledAttribute): seq<ByteString> {
    [a.ident, Count(PartitionOf(a.id)), Count(SequenceOf(a.id)), TypeName(a.valueType), CardinalityName(a.cardinality),
     UniqueName(a.unique), Flag(a.indexed), Flag(a.isComponent), Flag(a.noHistory)]
  }

  function AttributeFields(a: InstalledAttribute, rest: seq<ByteString>): seq<ByteString> {
    AttributeHead(a)
    + Optional(a.doc, [Flag(a.retired)] + Optional(a.protection, [Flag(a.everProtected)] + ([Flag(a.engine)] + rest)))
  }

  function AttributesFields(attrs: seq<InstalledAttribute>): seq<ByteString> {
    if attrs == [] then [] else AttributeFields(attrs[0], AttributesFields(attrs[1..]))
  }

  function InOrder(s: InstalledSchema, idents: seq<ByteString>): (attrs: seq<InstalledAttribute>)
    requires forall k :: k in idents ==> k in s.attrs
    ensures |attrs| == |idents| && forall i :: 0 <= i < |idents| ==> attrs[i] == s.attrs[idents[i]]
  {
    if idents == [] then [] else [s.attrs[idents[0]]] + InOrder(s, idents[1..])
  }

  ghost function Idents(s: InstalledSchema): (idents: seq<ByteString>)
    ensures |idents| == |s.attrs| && forall k :: k in idents <==> k in s.attrs
  {
    BytesOrder();
    OrderedMeaning(Less, s.attrs.Keys);
    Ordered(Less, s.attrs.Keys)
  }

  /** The attributes in ident order. */
  ghost function Listed(s: InstalledSchema): (attrs: seq<InstalledAttribute>)
    ensures |attrs| == |s.attrs|
  {
    InOrder(s, Idents(s))
  }

  ghost function SchemaFields(s: InstalledSchema): seq<ByteString> {
    [Ascii("corium.installed-schema")] + ([Count(Plans.PLAN_FORMAT_VERSION)]
    + ([Count(|s.attrs|)] + AttributesFields(Listed(s))))
  }

  /** The bytes `InstalledSchema::fingerprint` hashes. */
  ghost function Preimage(s: InstalledSchema): ByteString { Fields(SchemaFields(s)) }

  // ---------------------------------------------------------------------
  // What the fingerprint covers
  // ---------------------------------------------------------------------

  lemma IdsDiffer(a: EntityId, b: EntityId)
    requires PartitionOf(a) == PartitionOf(b) && SequenceOf(a) == SequenceOf(b)
    ensures a == b
  {}

  lemma HeadReads(a: InstalledAttribute, b: InstalledAttribute)
    requires AttributeHead(a) == AttributeHead(b)
    ensures a.ident == b.ident && a.id == b.id && a.valueType == b.valueType && a.cardinality == b.cardinality
    ensures a.unique == b.unique && a.indexed == b.indexed && a.isComponent == b.isComponent
            && a.noHistory == b.noHistory
  {
    hide Count, TypeName, CardinalityName, UniqueName, Flag, PartitionOf, SequenceOf;
    var g, h := AttributeHead(a), AttributeHead(b);
    assert g[0] == h[0] && g[1] == h[1] && g[2] == h[2] && g[3] == h[3] && g[4] == h[4] && g[5] == h[5]
        && g[6] == h[6] && g[7] == h[7] && g[8] == h[8];
    CountIsInjective(PartitionOf(a.id), PartitionOf(b.id));
    CountIsInjective(SequenceOf(a.id), SequenceOf(b.id));
    IdsDiffer(a.id, b.id);
    TypeNamesDiffer(a.valueType, b.valueType);
    CardinalityNamesDiffer(a.cardinality, b.cardinality);
    UniqueNamesDiffer(a.unique, b.unique);
    FlagsDiffer(a.indexed, b.indexed); FlagsDiffer(a.isComponent, b.isComponent); FlagsDiffer(a.noHistory, b.noHistory);
  }

  lemma SplitHead(a: InstalledAttribute, r: seq<ByteString>, b: InstalledAttribute, s: seq<ByteString>)
    requires AttributeHead(a) + r == AttributeHead(b) + s
    ensures AttributeHead(a) == AttributeHead(b) && r == s
  {
    var f, g := AttributeHead(a) + r, AttributeHead(b) + s;
    assert f[..9] == AttributeHead(a) && g[..9] == AttributeHead(b);
    assert f[9..] == r && g[9..] == s;
  }

  lemma AttributeReads(a: InstalledAttribute, r: seq<ByteString>, b: InstalledAttribute, s: seq<ByteString>)
    requires AttributeFields(a, r) == AttributeFields(b, s)
    ensures a == b && r == s
  {
    hide AttributeHead, Optional, Flag;
    var e, f := [Flag(a.everProtected)] + ([Flag(a.engine)] + r), [Flag(b.everProtected)] + ([Flag(b.engine)] + s);
    var c, d := Optional(a.protection, e), Optional(b.protection, f);
    SplitHead(a, Optional(a.doc, [Flag(a.retired)] + c), b, Optional(b.doc, [Flag(b.retired)] + d));
    HeadReads(a, b);
    OptionalReads(a.doc, [Flag(a.retired)] + c, b.doc, [Flag(b.retired)] + d);
    OneReads(Flag(a.retired), c, Flag(b.retired), d);
    OptionalReads(a.protection, e, b.protection, f);
    OneReads(Flag(a.everProtected), [Flag(a.engine)] + r, Flag(b.everProtected), [Flag(b.engine)] + s);
    OneReads(Flag(a.engine), r, Flag(b.engine), s);
    FlagsDiffer(a.retired, b.retired); FlagsDiffer(a.everProtected, b.everProtected); FlagsDiffer(a.engine, b.engine);
  }

  lemma {:induction false} AttributesRead(a: seq<InstalledAttribute>, b: seq<InstalledAttribute>)
    requires |a| == |b| && AttributesFields(a) == AttributesFields(b)
    ensures a == b
    decreases |a|
  {
    hide AttributeFields;
    if a != [] {
      AttributeReads(a[0], AttributesFields(a[1..]), b[0], AttributesFields(b[1..]));
      AttributesRead(a[1..], b[1..]);
      assert a == [a[0]] + a[1..] && b == [b[0]] + b[1..];
    }
  }

  lemma ListedMember(s: InstalledSchema, a: InstalledAttribute)
    ensures a in Listed(s) <==> exists k :: k in s.attrs && s.attrs[k] == a
  {
    hide Idents;
    var idents := Idents(s);
    if a in Listed(s) {
      var i :| 0 <= i < |idents| && Listed(s)[i] == a;
      assert idents[i] in s.attrs;
    }
    if k :| k in s.attrs && s.attrs[k] == a {
      var i :| 0 <= i < |idents| && idents[i] == k;
      assert Listed(s)[i] == a;
    }
  }

  lemma SameListed(s: InstalledSchema, t: InstalledSchema)
    requires ByIdent(s) && ByIdent(t) && Listed(s) == Listed(t)
    ensures s.attrs == t.attrs
  {
    hide Listed;
    forall k | k in s.attrs ensures k in t.attrs && t.attrs[k] == s.attrs[k] {
      ListedMember(s, s.attrs[k]); ListedMember(t, s.attrs[k]);
    }
    forall k | k in t.attrs ensures k in s.attrs {
      ListedMember(s, t.attrs[k]); ListedMember(t, t.attrs[k]);
    }
  }

  /** Fingerprints have one input exactly when every attribute agrees in every property. */
  lemma FingerprintIsExact(s: InstalledSchema, t: InstalledSchema)
    requires ByIdent(s) && ByIdent(t)
    ensures Preimage(s) == Preimage(t) <==> s.attrs == t.attrs
  {
    hide Fields, AttributesFields, Ascii, Count, Listed;
    if Preimage(s) == Preimage(t) {
      FieldsAreInjective(SchemaFields(s), SchemaFields(t));
      var f, g := SchemaFields(s), SchemaFields(t);
      assert f[2] == Count(|s.attrs|) && f[3..] == AttributesFields(Listed(s));
      assert g[2] == Count(|t.attrs|) && g[3..] == AttributesFields(Listed(t));
      CountIsInjective(|s.attrs|, |t.attrs|);
      AttributesRead(Listed(s), Listed(t));
      SameListed(s, t);
    }
    if s.attrs == t.attrs { ListedAgree(s, t); }
  }

  lemma ListedAgree(s: InstalledSchema, t: InstalledSchema)
    requires s.attrs == t.attrs
    ensures Listed(s) == Listed(t)
  {
    hide Less, Ordered;
    assert Idents(s) == Idents(t);
  }

  // ---------------------------------------------------------------------
  // Writing
  // ---------------------------------------------------------------------

  lemma AttributeRest(a: InstalledAttribute, rest: seq<ByteString>)
    ensures AttributeFields(a, rest) == AttributeHead(a) + Optional(a.doc, []) + [Flag(a.retired)]
                                        + Optional(a.protection, []) + [Flag(a.everProtected), Flag(a.engine)] + rest
  {
    hide AttributeHead, Optional, Flag;
    var e := [Flag(a.everProtected)] + ([Flag(a.engine)] + rest);
    OptionalRest(a.protection, e);
    OptionalRest(a.doc, [Flag(a.retired)] + Optional(a.protection, e));
  }

  lemma {:induction false} AttributesAppend(attrs: seq<InstalledAttribute>, a: InstalledAttribute)
    ensures AttributesFields(attrs + [a]) == AttributesFields(attrs) + AttributeFields(a, [])
    decreases |attrs|
  {
    hide AttributeFields, AttributeHead, Optional, Flag;
    if attrs == [] {
      assert [] + [a] == [a] && [a][1..] == [];
    } else {
      AttributesAppend(attrs[1..], a);
      assert (attrs + [a])[1..] == attrs[1..] + [a];
      AttributeRest(attrs[0], AttributesFields(attrs[1..] + [a]));
      AttributeRest(attrs[0], AttributesFields(attrs[1..]));
    }
  }

  method WriteAttribute(enc: Encoder, a: InstalledAttribute)
    modifies enc
    ensures enc.out == old(enc.out) + Fields(AttributeFields(a, []))
  {
    hide Fields, AttributeHead, AttributeFields, Optional, Flag;
    enc.WriteFields(AttributeHead(a));
    enc.WriteOptional(a.doc);
    enc.WriteFields([Flag(a.retired)]);
    enc.WriteOptional(a.protection);
    enc.WriteFields([Flag(a.everProtected), Flag(a.engine)]);
    ghost var b, c, d, e := Optional(a.doc, []), [Flag(a.retired)], Optional(a.protection, []),
        [Flag(a.everProtected), Flag(a.engine)];
    FieldsAppend(AttributeHead(a), b);
    FieldsAppend(AttributeHead(a) + b, c);
    FieldsAppend(AttributeHead(a) + b + c, d);
    FieldsAppend(AttributeHead(a) + b + c + d, e);
    AttributeRest(a, []);
    assert AttributeFields(a, []) == AttributeHead(a) + b + c + d + e;
  }

  lemma NoAttributes()
    ensures Fields(AttributesFields([])) == []
  {}

  method WriteAttributes(enc: Encoder, attrs: seq<InstalledAttribute>)
    modifies enc
    ensures enc.out == old(enc.out) + Fields(AttributesFields(attrs))
  {
    hide AttributeFields, AttributesFields, Fields;
    NoAttributes();
    assert attrs[..0] == [];
    for i := 0 to |attrs|
      invariant enc.out == old(enc.out) + Fields(AttributesFields(attrs[..i]))
    {
      WriteAttribute(enc, attrs[i]);
      AttributesAppend(attrs[..i], attrs[i]);
      assert attrs[..i + 1] == attrs[..i] + [attrs[i]];
      FieldsAppend(AttributesFields(attrs[..i]), AttributeFields(attrs[i], []));
    }
    assert attrs[..|attrs|] == attrs;
  }

  lemma SchemaInParts(s: InstalledSchema, head: seq<ByteString>, idents: seq<ByteString>)
    requires head == [Ascii("corium.installed-schema"), Count(Plans.PLAN_FORMAT_VERSION), Count(|s.attrs|)]
    requires TotalOrder(Less) && idents == Ordered(Less, s.attrs.Keys)
    ensures forall k :: k in idents ==> k in s.attrs
    ensures Preimage(s) == Fields(head) + Fields(AttributesFields(InOrder(s, idents)))
  {
    hide Fields, AttributesFields, Ascii, Count, Less, Ordered;
    OrderedMeaning(Less, s.attrs.Keys);
    FieldsAppend(head, AttributesFields(InOrder(s, idents)));
    assert SchemaFields(s) == head + AttributesFields(InOrder(s, idents));
  }

  /** `InstalledSchema::fingerprint`, up to the hash. */
  method Fingerprinted(s: InstalledSchema) returns (bytes: ByteString)
    ensures bytes == Preimage(s)
  {
    hide Fields, AttributesFields, Ascii, Count, Less, Ordered, Preimage;
    var enc := new Encoder();
    var head := [Ascii("corium.installed-schema"), Count(Plans.PLAN_FORMAT_VERSION), Count(|s.attrs|)];
    enc.WriteFields(head);
    BytesOrder();
    var idents := Iterate(Less, s.attrs.Keys);
    SchemaInParts(s, head, idents);
    WriteAttributes(enc, InOrder(s, idents));
    bytes := enc.out;
  }
}
