/** Sealing by one peer and opening by another, each with an interner of its own. */
module Sealer {
  import opened Bytes
  import opened Encoding
  import Keywords
  import opened Options
  import opened Sealing
  import opened Values

  method BuildAad(keyId: Text, epoch: u32, attr: EntityId, entity: Option<EntityId>, vtype: ValueType)
    returns (aad: seq<byte>)
    ensures aad == SealAad(keyId, epoch, attr, entity, vtype)
  {
    hide BigEndian, TypeTag;
    aad := [];
    aad := aad + SEAL_AAD_PREFIX;
    aad := aad + keyId;
    aad := aad + BigEndian(4, epoch);
    aad := aad + BigEndian(8, attr);
    if entity.Some? {
      aad := aad + BigEndian(8, entity.value);
    }
    aad := aad + [TypeTag(vtype)];
  }

  method EncodePlaintext(v: Value, interner: Keywords.KeywordInterner) returns (r: Result<seq<byte>>)
    ensures r == EncodePlain(v, interner.Names())
  {
    hide Encode, Keywords.TextOf;
    match v
    case Sealed(_, _, _, _) => r := Failure(Plaintext(Nested));
    case Keyword(id) =>
      var k := interner.Resolve(id);
      if k.Some? {
        r := Success(Encode(Str(Keywords.TextOf(k.value))));
      } else {
        r := Failure(Plaintext(UnresolvableKeyword(id)));
      }
    case _ => r := Success(Encode(v));
  }

  /** `seal_value`. */
  method SealValue(cipher: Cipher, p: Protections, keys: ClassKeys, attr: EntityId, v: Value,
                   interner: Keywords.KeywordInterner) returns (r: Result<Value>)
    ensures r == Seal(cipher, p, keys, attr, v, interner.Names())
  {
    hide EncodePlain, SealAad, Padded, HasType;
    var current := CurrentClass(p.schema, attr);
    if current.None? { return Failure(NotProtected(attr)); }
    var c := current.value;
    var class_ := ClassOf(p, c);
    if class_.Failure? { return Failure(class_.error); }
    var vtype := DeclaredType(p.schema, attr);
    if !HasType(v, vtype) { return Failure(TypeMismatch(attr, vtype)); }
    var epoch := class_.value.currentEpoch;
    if (c, epoch) !in keys { return Failure(MissingKey(c, epoch)); }
    var plain := EncodePlaintext(v, interner);
    if plain.Failure? { return Failure(plain.error); }
    var aad := BuildAad(class_.value.keyId, epoch, attr, None, vtype);
    var body := cipher.seal(keys[(c, epoch)], aad, Padded(plain.value, class_.value.padding));
    r := if body.Some? then Success(Sealed(c, epoch, vtype, body.value)) else Failure(Authentication(c, epoch));
  }

  /** The value a reader binds stands for what was opened. */
  ghost predicate StandsFor(r: Result<Value>, plain: Result<Plain>, names: Names) {
    match plain
    case Failure(e) => r == Failure(e)
    case Success(PlainValue(v)) => r == Success(v)
    case Success(PlainKeyword(k)) =>
      r.Success? && r.value.Keyword? && r.value.kw in names && names[r.value.kw] == k
  }

  /** `open_value`: a keyword gets an id of this reader's own, and the durable table is left alone. */
  method OpenValue(cipher: Cipher, p: Protections, keys: ClassKeys, attr: EntityId, sealed: Value,
                   interner: Keywords.KeywordInterner) returns (r: Result<Value>)
    requires interner.Valid() && sealed.Sealed?
    requires Keywords.FIRST_LOCAL_KW_ID + |interner.local.byId| < U64_LIMIT
    modifies interner.local
    ensures interner.Valid() && StandsFor(r, Open(cipher, p, keys, attr, sealed), interner.Names())
    ensures Keywords.KeepsMeaning(old(interner.Names()), interner.Names())
  {
    hide Open, Keywords.Dense;
    var plain := Open(cipher, p, keys, attr, sealed);
    match plain
    case Failure(e) => r := Failure(e);
    case Success(PlainValue(v)) => r := Success(v);
    case Success(PlainKeyword(k)) =>
      var id := interner.InternLocal(k);
      IdFits(interner, id);
      r := Success(Keyword(id));
  }

  lemma IdFits(interner: Keywords.KeywordInterner, id: nat)
    requires interner.Valid() && id in interner.Names()
    ensures id < Keywords.FIRST_LOCAL_KW_ID + |interner.local.byId|
  {}

  /**
   * A value sealed with one peer's keywords opens with another's to the same value: a keyword as the keyword the writer
   * meant, though under an id of the reader's.
   */
  method SealThenOpen(cipher: Cipher, p: Protections, keys: ClassKeys, attr: EntityId, v: Value,
                      writer: Keywords.KeywordInterner, reader: Keywords.KeywordInterner)
    returns (sealed: Result<Value>, back: Result<Value>)
    requires Ideal(cipher) && reader.Valid() && Keywords.FIRST_LOCAL_KW_ID + |reader.local.byId| < U64_LIMIT
    requires v.Keyword? && v.kw in writer.Names() ==> Keywords.Parsable(writer.Names()[v.kw])
    modifies reader.local
    ensures sealed == Seal(cipher, p, keys, attr, v, old(writer.Names()))
    ensures sealed.Failure? ==> back == sealed
    ensures sealed.Success? ==> StandsFor(back, Success(if v.Keyword? && v.kw in old(writer.Names())
                                                        then PlainKeyword(old(writer.Names())[v.kw])
                                                        else PlainValue(v)), reader.Names())
  {
    hide Seal, Open, Keywords.Dense, Ideal, Keywords.Parsable;
    ghost var names := writer.Names();
    sealed := SealValue(cipher, p, keys, attr, v, writer);
    if sealed.Failure? { return sealed, sealed; }
    OpenUndoesSeal(cipher, p, keys, attr, v, names);
    if v.Keyword? && v.kw in names { KeywordComesBack(v, names); }
    back := OpenValue(cipher, p, keys, attr, sealed.value, reader);
  }
}
