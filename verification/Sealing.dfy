/**
 * Sealing and opening values of protected attributes.
 *
 * The cipher is a parameter. `Ideal` is what an authenticated deterministic cipher promises: a body opens under exactly
 * the key and associated data it was sealed with, to exactly what was sealed.
 */
module Sealing {
  import opened Bytes
  import Canonical
  import opened Encoding
  import Keywords
  import opened Options
  import opened Schemas
  import opened Values

  // ---------------------------------------------------------------------
  // Classes, keys and errors
  // ---------------------------------------------------------------------

  datatype Scope = AttributeScope | EntityScope

  datatype ProtectionClass =
    ProtectionClass(id: EntityId, keyId: Text, scope: Scope, padding: Option<u32>, currentEpoch: u32)

  datatype Protections = Protections(schema: Schema, classes: map<EntityId, ProtectionClass>)

  type Key = seq<byte>

  type ClassKeys = map<(EntityId, u32), Key>

  type Names = map<nat, Keywords.Keyword>

  datatype PlaintextError =
    | Nested
    | UnresolvableKeyword(id: nat)
    | Malformed(cause: DecodeError)
    | WrongType(expected: ValueType, actual: ValueType)

  datatype ProtectError =
    | NotProtected(attr: EntityId)
    | UnknownClass(unknown: EntityId)
    | UnsupportedScope(entityScoped: EntityId)
    | TypeMismatch(on: EntityId, declared: ValueType)
    | MissingKey(keyOf: EntityId, atEpoch: u32)
    | Authentication(under: EntityId, sealedAt: u32)
    | Plaintext(plaintext: PlaintextError)
    | ForeignClass(foundOn: EntityId, foreign: EntityId)

  datatype Result<+T> = Success(value: T) | Failure(error: ProtectError) {
    predicate IsFailure() { Failure? }

    function PropagateFailure<U>(): Result<U>
      requires Failure?
    {
      Failure(error)
    }

    function Extract(): T
      requires Success?
    {
      value
    }
  }

  // ---------------------------------------------------------------------
  // The cipher
  // ---------------------------------------------------------------------

  datatype Cipher = Cipher(
    seal: (Key, seq<byte>, seq<byte>) -> Option<seq<byte>>,
    open: (Key, seq<byte>, seq<byte>) -> Option<seq<byte>>)

  /** What was sealed opens. */
  ghost predicate Inverts(cipher: Cipher) {
    forall k, aad, plain, body ::
      cipher.seal(k, aad, plain) == Some(body) ==> cipher.open(k, aad, body) == Some(plain)
  }

  /** A body opens under no other key or associated data. */
  ghost predicate Binds(cipher: Cipher) {
    forall k, aad, plain, body, l, other ::
      cipher.seal(k, aad, plain) == Some(body) && cipher.open(l, other, body).Some? ==> k == l && aad == other
  }

  /** Nothing opens that was not sealed under that key and associated data. */
  ghost predicate Genuine(cipher: Cipher) {
    forall k, aad, plain, body ::
      cipher.open(k, aad, body) == Some(plain) ==> cipher.seal(k, aad, plain) == Some(body)
  }

  ghost predicate Ideal(cipher: Cipher) { Inverts(cipher) && Binds(cipher) && Genuine(cipher) }

  // ---------------------------------------------------------------------
  // Plaintext
  // ---------------------------------------------------------------------

  /** What a reader gets out of a sealed value, before a keyword is given an id again. */
  datatype Plain = PlainValue(v: Value) | PlainKeyword(k: Keywords.Keyword)

  /** `encode_seal_plaintext`: a keyword goes by its text. */
  function EncodePlain(v: Value, names: Names): Result<seq<byte>> {
    match v
    case Sealed(_, _, _, _) => Failure(Plaintext(Nested))
    case Keyword(id) =>
      if id in names then Success(Encode(Str(Keywords.TextOf(names[id]))))
      else Failure(Plaintext(UnresolvableKeyword(id)))
    case _ => Success(Encode(v))
  }

  function MismatchError(v: Value, expected: ValueType): ProtectError {
    if v.Sealed? then Plaintext(Nested) else Plaintext(WrongType(expected, TypeOf(v)))
  }

  function TypeOf(v: Value): (t: ValueType)
    requires !v.Sealed?
    ensures HasType(v, t)
  {
    match v
    case Bool(_) => BoolType
    case Long(_) => LongType
    case Double(_) => DoubleType
    case Instant(_) => InstantType
    case Uuid(_) => UuidType
    case Keyword(_) => KeywordType
    case Str(_) => StrType
    case Bytes(_) => BytesType
    case Ref(_) => RefType
  }

  /** `decode_seal_plaintext`, up to interning: whatever follows the first value is ignored. */
  function DecodePlain(bytes: seq<byte>, expected: ValueType): Result<Plain> {
    match Decode(bytes)
    case Err(e) => Failure(Plaintext(Malformed(e)))
    case Ok(v, _) =>
      if expected == KeywordType then
        (if v.Str? then Success(PlainKeyword(Keywords.Parse(v.text))) else Failure(MismatchError(v, expected)))
      else if HasType(v, expected) then Success(PlainValue(v))
      else Failure(MismatchError(v, expected))
  }

  /** `pad`: zeros up to the next multiple. */
  function Padded(plain: seq<byte>, padding: Option<u32>): (out: seq<byte>)
    ensures plain <= out
    ensures padding.Some? && padding.value > 0 ==> |out| % padding.value == 0 && |out| < |plain| + padding.value
    ensures padding.None? || padding.value == 0 ==> out == plain
    ensures forall i :: |plain| <= i < |out| ==> out[i] == 0
  {
    if padding.None? || padding.value == 0 then plain else
    var m: int := padding.value;
    var remainder := |plain| % m;
    if remainder == 0 then plain else
    RoundsUp(|plain|, m);
    plain + seq(m - remainder, i => 0)
  }

  lemma RoundsUp(n: nat, m: int)
    requires m > 0
    ensures (n + (m - n % m)) % m == 0
  {
    var k := n / m + 1;
    var x := n + (m - n % m);
    assert x == k * m;
    var d, r := x / m, x % m;
    assert x == d * m + r;
    assert (k - d) * m == r by { assert (k - d) * m == k * m - d * m; }
    SmallMultiple(k - d, m);
  }

  lemma SmallMultiple(t: int, m: int)
    requires 0 <= t * m < m
    ensures t * m == 0
  {}

  /** What opening gives back for a value: itself, or the keyword its text parses as. */
  function Meaning(v: Value, names: Names): Plain {
    if v.Keyword? && v.kw in names then PlainKeyword(Keywords.Parse(Keywords.TextOf(names[v.kw]))) else PlainValue(v)
  }

  lemma PlainRoundTrip(v: Value, names: Names, t: ValueType, rest: seq<byte>)
    requires HasType(v, t) && EncodePlain(v, names).Success?
    ensures DecodePlain(EncodePlain(v, names).value + rest, t) == Success(Meaning(v, names))
  {
    hide Encode, Decode, Keywords.TextOf, Keywords.Parse;
    DecodeInvertsEncode(if v.Keyword? then Str(Keywords.TextOf(names[v.kw])) else v, rest);
  }

  // ---------------------------------------------------------------------
  // Associated data
  // ---------------------------------------------------------------------

  /** `corium/seal-v1`. */
  const SEAL_AAD_PREFIX: seq<byte> := [99, 111, 114, 105, 117, 109, 47, 115, 101, 97, 108, 45, 118, 49]

  function SealAad(keyId: Text, epoch: u32, attr: EntityId, entity: Option<EntityId>, vtype: ValueType): seq<byte> {
    SEAL_AAD_PREFIX + keyId + BigEndian(4, epoch) + BigEndian(8, attr)
    + (if entity.Some? then BigEndian(8, entity.value) else []) + [TypeTag(vtype)]
  }

  lemma TagsDiffer(t: ValueType, u: ValueType)
    requires TypeTag(t) == TypeTag(u)
    ensures t == u
  {}

  lemma WordsDiffer(width: nat, m: nat, n: nat)
    requires m < Pow256(width) && n < Pow256(width) && BigEndian(width, m) == BigEndian(width, n)
    ensures m == n
  {
    BigEndianInverts(width, m); BigEndianInverts(width, n);
  }

  lemma SplitEnd(a: seq<byte>, x: seq<byte>, b: seq<byte>, y: seq<byte>)
    requires a + x == b + y && |x| == |y|
    ensures a == b && x == y
  {
    assert |a| == |b|;
    assert a == (a + x)[..|a|] && b == (b + y)[..|b|];
    assert x == (a + x)[|a|..] && y == (b + y)[|b|..];
  }

  /** Under attribute scope the associated data determines key id, epoch, attribute and type. */
  lemma AadIsInjective(k: Text, e: u32, a: EntityId, t: ValueType, l: Text, f: u32, b: EntityId, u: ValueType)
    requires SealAad(k, e, a, None, t) == SealAad(l, f, b, None, u)
    ensures k == l && e == f && a == b && t == u
  {
    hide TypeTag, BigEndian;
    Widths();
    BigEndianInverts(4, e); BigEndianInverts(4, f); BigEndianInverts(8, a); BigEndianInverts(8, b);
    var p := SEAL_AAD_PREFIX;
    var w, x := BigEndian(4, e), BigEndian(8, a);
    var y, z := BigEndian(4, f), BigEndian(8, b);
    assert SealAad(k, e, a, None, t) == (p + k + w + x) + [TypeTag(t)];
    assert SealAad(l, f, b, None, u) == (p + l + y + z) + [TypeTag(u)];
    SplitEnd(p + k + w + x, [TypeTag(t)], p + l + y + z, [TypeTag(u)]);
    assert TypeTag(t) == [TypeTag(t)][0] == [TypeTag(u)][0];
    SplitEnd(p + k + w, x, p + l + y, z);
    SplitEnd(p + k, w, p + l, y);
    assert k == (p + k)[|p|..] && l == (p + l)[|p|..];
    TagsDiffer(t, u);
    WordsDiffer(4, e, f); WordsDiffer(8, a, b);
  }

  // ---------------------------------------------------------------------
  // Sealing and opening
  // ---------------------------------------------------------------------

  function CurrentClass(schema: Schema, attr: EntityId): Option<EntityId> {
    var timeline := Timeline(schema, attr);
    if timeline == [] then None else timeline[|timeline| - 1].1
  }

  predicate UsedClass(schema: Schema, attr: EntityId, c: EntityId) {
    exists i :: 0 <= i < |Timeline(schema, attr)| && Timeline(schema, attr)[i].1 == Some(c)
  }

  function DeclaredType(schema: Schema, attr: EntityId): ValueType {
    if attr in schema.attrs then schema.attrs[attr].valueType else StrType
  }

  /** The class a value is sealed or opened under, and the entity its associated data binds. */
  function ClassOf(p: Protections, c: EntityId): Result<ProtectionClass> {
    if c !in p.classes then Failure(UnknownClass(c))
    else if p.classes[c].scope == EntityScope then Failure(UnsupportedScope(p.classes[c].id))
    else Success(p.classes[c])
  }

  /** `seal_value`. */
  function Seal(cipher: Cipher, p: Protections, keys: ClassKeys, attr: EntityId, v: Value,
                names: Names): Result<Value> {
    var current := CurrentClass(p.schema, attr);
    if current.None? then Failure(NotProtected(attr)) else
    var c := current.value;
    var class_ :- ClassOf(p, c);
    var vtype := DeclaredType(p.schema, attr);
    if !HasType(v, vtype) then Failure(TypeMismatch(attr, vtype)) else
    var epoch := class_.currentEpoch;
    if (c, epoch) !in keys then Failure(MissingKey(c, epoch)) else
    var plain :- EncodePlain(v, names);
    var aad := SealAad(class_.keyId, epoch, attr, None, vtype);
    match cipher.seal(keys[(c, epoch)], aad, Padded(plain, class_.padding))
    case None => Failure(Authentication(c, epoch))
    case Some(body) => Success(Sealed(c, epoch, vtype, body))
  }

  /** `open_value`, up to interning. */
  function Open(cipher: Cipher, p: Protections, keys: ClassKeys, attr: EntityId, sealed: Value): Result<Plain>
    requires sealed.Sealed?
  {
    var c, epoch := sealed.protection, sealed.epoch;
    if !UsedClass(p.schema, attr, c) then Failure(ForeignClass(attr, c)) else
    var class_ :- ClassOf(p, c);
    if (c, epoch) !in keys then Failure(MissingKey(c, epoch)) else
    var aad := SealAad(class_.keyId, epoch, attr, None, sealed.vtype);
    match cipher.open(keys[(c, epoch)], aad, sealed.body)
    case None => Failure(Authentication(c, epoch))
    case Some(plain) => DecodePlain(plain, sealed.vtype)
  }

  lemma CurrentIsUsed(schema: Schema, attr: EntityId)
    requires CurrentClass(schema, attr).Some?
    ensures UsedClass(schema, attr, CurrentClass(schema, attr).value)
  {
    assert Timeline(schema, attr)[|Timeline(schema, attr)| - 1].1 == CurrentClass(schema, attr);
  }

  /** What a successful seal went through. */
  lemma SealSteps(cipher: Cipher, p: Protections, keys: ClassKeys, attr: EntityId, v: Value, names: Names)
    requires Seal(cipher, p, keys, attr, v, names).Success?
    ensures var s := Seal(cipher, p, keys, attr, v, names).value;
            && s.Sealed? && UsedClass(p.schema, attr, s.protection) && ClassOf(p, s.protection).Success?
            && Timeline(p.schema, attr)[|Timeline(p.schema, attr)| - 1].1 == Some(s.protection)
            && s.epoch == p.classes[s.protection].currentEpoch && s.vtype == DeclaredType(p.schema, attr)
            && HasType(v, s.vtype) && EncodePlain(v, names).Success? && (s.protection, s.epoch) in keys
            && cipher.seal(keys[(s.protection, s.epoch)],
                           SealAad(p.classes[s.protection].keyId, s.epoch, attr, None, s.vtype),
                           Padded(EncodePlain(v, names).value, p.classes[s.protection].padding)) == Some(s.body)
  {
    hide Padded, SealAad, EncodePlain;
    CurrentIsUsed(p.schema, attr);
  }

  /** What a caller can see before sealing: the last timeline entry names the class in force. */
  predicate Sealable(p: Protections, keys: ClassKeys, attr: EntityId, v: Value, names: Names) {
    var timeline := Timeline(p.schema, attr);
    && timeline != [] && timeline[|timeline| - 1].1.Some?
    && var c := timeline[|timeline| - 1].1.value;
    && c in p.classes && p.classes[c].scope == AttributeScope && (c, p.classes[c].currentEpoch) in keys
    && HasType(v, if attr in p.schema.attrs then p.schema.attrs[attr].valueType else StrType)
    && !v.Sealed? && (v.Keyword? ==> v.kw in names)
  }

  /** With a cipher that refuses nothing, sealing succeeds exactly for the sealable values. */
  lemma SealsSealable(cipher: Cipher, p: Protections, keys: ClassKeys, attr: EntityId, v: Value, names: Names)
    requires forall k, aad, plain :: cipher.seal(k, aad, plain).Some?
    ensures Seal(cipher, p, keys, attr, v, names).Success? <==> Sealable(p, keys, attr, v, names)
  {
    hide Padded, SealAad, Encode;
  }

  /** Opening undoes sealing, for every value and any padding. */
  lemma OpenUndoesSeal(cipher: Cipher, p: Protections, keys: ClassKeys, attr: EntityId, v: Value, names: Names)
    requires Ideal(cipher) && Seal(cipher, p, keys, attr, v, names).Success?
    ensures var s := Seal(cipher, p, keys, attr, v, names).value;
            s.Sealed? && Open(cipher, p, keys, attr, s) == Success(Meaning(v, names))
  {
    hide Seal, SealAad, EncodePlain, DecodePlain, Meaning, UsedClass, HasType, Padded;
    SealSteps(cipher, p, keys, attr, v, names);
    var s := Seal(cipher, p, keys, attr, v, names).value;
    var plain := EncodePlain(v, names).value;
    var padded := Padded(plain, p.classes[s.protection].padding);
    assert padded == plain + padded[|plain|..];
    PlainRoundTrip(v, names, s.vtype, padded[|plain|..]);
  }

  /**
   * A sealed value stays readable after later protection changes and key rotations: any class its attribute ever used
   * opens it, while that class keeps its key id and scope and the reader holds the key of the epoch it was sealed in.
   */
  lemma OpensAfterChange(cipher: Cipher, p: Protections, keys: ClassKeys, attr: EntityId, v: Value, names: Names,
                         q: Protections, held: ClassKeys)
    requires Ideal(cipher) && Seal(cipher, p, keys, attr, v, names).Success?
    requires Timeline(p.schema, attr) <= Timeline(q.schema, attr)
    requires Seal(cipher, p, keys, attr, v, names).value.Sealed?
    requires var s := Seal(cipher, p, keys, attr, v, names).value;
             && s.protection in p.classes && s.protection in q.classes
             && q.classes[s.protection].keyId == p.classes[s.protection].keyId
             && q.classes[s.protection].scope == AttributeScope
             && (s.protection, s.epoch) in keys && (s.protection, s.epoch) in held
             && held[(s.protection, s.epoch)] == keys[(s.protection, s.epoch)]
    ensures Open(cipher, q, held, attr, Seal(cipher, p, keys, attr, v, names).value) == Success(Meaning(v, names))
  {
    hide Seal, SealAad, EncodePlain, DecodePlain, Meaning, UsedClass, HasType, Padded, Timeline;
    SealSteps(cipher, p, keys, attr, v, names);
    var s := Seal(cipher, p, keys, attr, v, names).value;
    StillUsed(p.schema, q.schema, attr, s.protection);
    var plain := EncodePlain(v, names).value;
    var padded := Padded(plain, p.classes[s.protection].padding);
    assert padded == plain + padded[|plain|..];
    PlainRoundTrip(v, names, s.vtype, padded[|plain|..]);
  }

  lemma StillUsed(before: Schema, after: Schema, attr: EntityId, c: EntityId)
    requires Timeline(before, attr) <= Timeline(after, attr) && UsedClass(before, attr, c)
    ensures UsedClass(after, attr, c)
  {
    var i :| 0 <= i < |Timeline(before, attr)| && Timeline(before, attr)[i].1 == Some(c);
    assert Timeline(after, attr)[i] == Timeline(before, attr)[i];
  }

  /** A value sealed under a class its attribute never used is refused as foreign, whatever its body. */
  lemma ForeignIsRefused(cipher: Cipher, p: Protections, keys: ClassKeys, attr: EntityId, s: Value)
    requires s.Sealed?
    ensures Open(cipher, p, keys, attr, s) == Failure(ForeignClass(attr, s.protection))
            <==> forall i :: 0 <= i < |Timeline(p.schema, attr)| ==> Timeline(p.schema, attr)[i].1 != Some(s.protection)
  {
    hide SealAad, DecodePlain;
    if UsedClass(p.schema, attr, s.protection) {
      var i :| 0 <= i < |Timeline(p.schema, attr)| && Timeline(p.schema, attr)[i].1 == Some(s.protection);
      OpenPastClass(cipher, p, keys, attr, s);
    }
  }

  lemma OpenPastClass(cipher: Cipher, p: Protections, keys: ClassKeys, attr: EntityId, s: Value)
    requires s.Sealed? && UsedClass(p.schema, attr, s.protection)
    ensures Open(cipher, p, keys, attr, s).Failure? ==> !Open(cipher, p, keys, attr, s).error.ForeignClass?
  {
    hide SealAad, DecodePlain, UsedClass;
    if ClassOf(p, s.protection).Success? && (s.protection, s.epoch) in keys {
      var plain := cipher.open(keys[(s.protection, s.epoch)],
                               SealAad(p.classes[s.protection].keyId, s.epoch, attr, None, s.vtype), s.body);
      if plain.Some? { DecodeNeverBlamesKey(plain.value, s.vtype); }
    }
  }

  /** A sealed value shows the value type its attribute declares, and a keyword comes back exactly if it is parsable. */
  lemma KeywordComesBack(v: Value, names: Names)
    requires v.Keyword? && v.kw in names
    ensures Meaning(v, names) == PlainKeyword(names[v.kw]) <==> Keywords.Parsable(names[v.kw])
  {
    Keywords.TextRoundTrip(names[v.kw]);
  }

  /** A body opens only where key, key id, epoch, attribute and type are those it was sealed with. */
  lemma OpensOnlyInContext(cipher: Cipher, p: Protections, keys: ClassKeys, attr: EntityId, v: Value, names: Names,
                           q: Protections, others: ClassKeys, elsewhere: EntityId, moved: Value)
    requires Ideal(cipher) && Seal(cipher, p, keys, attr, v, names).Success?
    requires Seal(cipher, p, keys, attr, v, names).value.Sealed? && moved.Sealed?
    requires moved.body == Seal(cipher, p, keys, attr, v, names).value.body
    requires Open(cipher, q, others, elsewhere, moved).Success?
    ensures var s := Seal(cipher, p, keys, attr, v, names).value;
            && elsewhere == attr && moved.epoch == s.epoch && moved.vtype == s.vtype
            && moved.protection in q.classes && s.protection in p.classes
            && q.classes[moved.protection].keyId == p.classes[s.protection].keyId
            && (moved.protection, moved.epoch) in others && (s.protection, s.epoch) in keys
            && others[(moved.protection, moved.epoch)] == keys[(s.protection, s.epoch)]
            && Open(cipher, q, others, elsewhere, moved) == Success(Meaning(v, names))
  {
    hide Seal, SealAad, EncodePlain, DecodePlain, Meaning, UsedClass, HasType, Padded;
    SealSteps(cipher, p, keys, attr, v, names);
    var s := Seal(cipher, p, keys, attr, v, names).value;
    var class_, other := p.classes[s.protection], q.classes[moved.protection];
    AadIsInjective(class_.keyId, s.epoch, attr, s.vtype, other.keyId, moved.epoch, elsewhere, moved.vtype) by {
      assert cipher.open(others[(moved.protection, moved.epoch)],
                         SealAad(other.keyId, moved.epoch, elsewhere, None, moved.vtype), moved.body).Some?;
    }
    OpenUndoesSeal(cipher, p, keys, attr, v, names);
  }

  /** The body was sealed, from some plaintext, for exactly the context its header and attribute name. */
  ghost predicate SealedFor(cipher: Cipher, p: Protections, keys: ClassKeys, attr: EntityId, s: Value)
    requires s.Sealed? && s.protection in p.classes && (s.protection, s.epoch) in keys
  {
    var aad := SealAad(p.classes[s.protection].keyId, s.epoch, attr, None, s.vtype);
    exists plain :: cipher.seal(keys[(s.protection, s.epoch)], aad, plain) == Some(s.body)
  }

  /** A body that was never sealed for its context, tampered with or made up, fails authentication. */
  lemma TamperedBodyFails(cipher: Cipher, p: Protections, keys: ClassKeys, attr: EntityId, s: Value)
    requires Ideal(cipher) && s.Sealed? && UsedClass(p.schema, attr, s.protection)
    requires ClassOf(p, s.protection).Success? && (s.protection, s.epoch) in keys
    ensures Open(cipher, p, keys, attr, s) == Failure(Authentication(s.protection, s.epoch))
            <==> !SealedFor(cipher, p, keys, attr, s)
  {
    hide SealAad, DecodePlain, UsedClass;
    var k, aad := keys[(s.protection, s.epoch)], SealAad(p.classes[s.protection].keyId, s.epoch, attr, None, s.vtype);
    if cipher.open(k, aad, s.body).Some? {
      var plain := cipher.open(k, aad, s.body).value;
      assert cipher.seal(k, aad, plain) == Some(s.body);
      DecodeNeverBlamesKey(plain, s.vtype);
    }
  }

  lemma DecodeNeverBlamesKey(bytes: seq<byte>, expected: ValueType)
    ensures DecodePlain(bytes, expected).Failure? ==> DecodePlain(bytes, expected).error.Plaintext?
  {}

  /** Two values seal to one body in a context only if a reader could not tell them apart. */
  lemma SealedApart(cipher: Cipher, p: Protections, keys: ClassKeys, attr: EntityId, v: Value, w: Value, names: Names)
    requires Ideal(cipher) && Seal(cipher, p, keys, attr, v, names).Success?
    requires Seal(cipher, p, keys, attr, v, names) == Seal(cipher, p, keys, attr, w, names)
    ensures Meaning(v, names) == Meaning(w, names)
  {
    hide Seal, Open, Meaning;
    OpenUndoesSeal(cipher, p, keys, attr, v, names);
    OpenUndoesSeal(cipher, p, keys, attr, w, names);
  }

  // ---------------------------------------------------------------------
  // Ideal ciphers exist
  // ---------------------------------------------------------------------

  ghost function Transparent(): Cipher {
    Cipher((k, aad, plain) => Some(Canonical.Fields([k, aad, plain])),
           (k, aad, body) =>
             if exists plain :: body == Canonical.Fields([k, aad, plain])
             then Some(var plain :| body == Canonical.Fields([k, aad, plain]); plain) else None)
  }

  lemma TransparentReads(k: Key, aad: seq<byte>, plain: seq<byte>, l: Key, other: seq<byte>, text: seq<byte>)
    requires Canonical.Fields([k, aad, plain]) == Canonical.Fields([l, other, text])
    ensures k == l && aad == other && plain == text
  {
    Canonical.FieldsAreInjective([k, aad, plain], [l, other, text]);
    assert [k, aad, plain][0] == [l, other, text][0] && [k, aad, plain][1] == [l, other, text][1]
        && [k, aad, plain][2] == [l, other, text][2];
  }

  lemma TransparentSeals(k: Key, aad: seq<byte>, plain: seq<byte>)
    ensures Transparent().seal(k, aad, plain) == Some(Canonical.Fields([k, aad, plain]))
  {}

  lemma TransparentOpens(k: Key, aad: seq<byte>, plain: seq<byte>, body: seq<byte>)
    requires Transparent().seal(k, aad, plain) == Some(body)
    ensures Transparent().open(k, aad, body) == Some(plain)
  {
    hide Canonical.Fields;
    var text := Transparent().open(k, aad, body).value;
    assert body == Canonical.Fields([k, aad, text]);
    TransparentReads(k, aad, plain, k, aad, text);
  }

  lemma TransparentBinds(k: Key, aad: seq<byte>, plain: seq<byte>, body: seq<byte>, l: Key, other: seq<byte>)
    requires Transparent().seal(k, aad, plain) == Some(body) && Transparent().open(l, other, body).Some?
    ensures k == l && aad == other
  {
    hide Canonical.Fields;
    var text :| body == Canonical.Fields([l, other, text]);
    TransparentReads(k, aad, plain, l, other, text);
  }

  lemma TransparentInverts()
    ensures Inverts(Transparent())
  {
    hide Canonical.Fields, Transparent;
    var t := Transparent();
    forall k: Key, aad: seq<byte>, plain: seq<byte>, body: seq<byte> | t.seal(k, aad, plain) == Some(body)
      ensures t.open(k, aad, body) == Some(plain)
    {
      TransparentOpens(k, aad, plain, body);
    }
  }

  lemma TransparentGenuine(k: Key, aad: seq<byte>, plain: seq<byte>, body: seq<byte>)
    requires Transparent().open(k, aad, body) == Some(plain)
    ensures Transparent().seal(k, aad, plain) == Some(body)
  {
    hide Canonical.Fields;
  }

  lemma TransparentGenuineAll()
    ensures Genuine(Transparent())
  {
    hide Canonical.Fields, Transparent;
    var t := Transparent();
    forall k: Key, aad: seq<byte>, plain: seq<byte>, body: seq<byte> | t.open(k, aad, body) == Some(plain)
      ensures t.seal(k, aad, plain) == Some(body)
    {
      TransparentGenuine(k, aad, plain, body);
    }
  }

  lemma TransparentBindsAll()
    ensures Binds(Transparent())
  {
    hide Canonical.Fields, Transparent;
    var t := Transparent();
    forall k: Key, aad: seq<byte>, plain: seq<byte>, body: seq<byte>, l: Key, other: seq<byte>
      | t.seal(k, aad, plain) == Some(body) && t.open(l, other, body).Some?
      ensures k == l && aad == other
    {
      TransparentBinds(k, aad, plain, body, l, other);
    }
  }

  /** The promise can be kept, and by a cipher that seals everything. */
  lemma IdealExists()
    ensures Ideal(Transparent())
    ensures forall k, aad, plain :: Transparent().seal(k, aad, plain).Some?
  {
    hide Canonical.Fields, Transparent, Inverts, Binds, Genuine;
    TransparentInverts();
    TransparentGenuineAll();
    TransparentBindsAll();
    forall k: Key, aad: seq<byte>, plain: seq<byte> ensures Transparent().seal(k, aad, plain).Some? {
      TransparentSeals(k, aad, plain);
    }
  }
}
