/** Datoms and the byte keys of the four covering indexes. */
module Datoms {
  import opened Options
  import opened Bytes
  import opened Values
  import opened Encoding

  datatype Fact = Fact(e: EntityId, a: EntityId, v: Value)

  datatype Datom = Datom(e: EntityId, a: EntityId, v: Value, tx: EntityId, added: bool) {
    function Eav(): Fact { Fact(e, a, v) }

    /** The transaction number `t` the datom belongs to. */
    function T(): nat { SequenceOf(tx) }
  }

  datatype IndexOrder = Eavt | Aevt | Avet | Vaet

  // ---------------------------------------------------------------------
  // Keys
  // ---------------------------------------------------------------------

  datatype Part = EntityPart | AttributePart | ValuePart

  function PartsOf(order: IndexOrder): (parts: seq<Part>)
    ensures |parts| == 3
  {
    match order
    case Eavt => [EntityPart, AttributePart, ValuePart]
    case Aevt => [AttributePart, EntityPart, ValuePart]
    case Avet => [AttributePart, ValuePart, EntityPart]
    case Vaet => [ValuePart, AttributePart, EntityPart]
  }

  /** The components a partial datom binds. */
  datatype Bound = Bound(e: Option<EntityId>, a: Option<EntityId>, v: Option<Value>)

  function PartKey(part: Part, bound: Bound): Option<seq<byte>> {
    match part
    case EntityPart => if bound.e.Some? then Some(U64Key(bound.e.value)) else None
    case AttributePart => if bound.a.Some? then Some(U64Key(bound.a.value)) else None
    case ValuePart => if bound.v.Some? then Some(Encode(bound.v.value)) else None
  }

  /** The bytes of the leading parts that are bound. */
  function PrefixKey(parts: seq<Part>, bound: Bound): seq<byte> {
    if parts == [] || PartKey(parts[0], bound).None? then []
    else PartKey(parts[0], bound).value + PrefixKey(parts[1..], bound)
  }

  /** `key_prefix`: encode components in index order and stop at the first one missing. */
  method KeyPrefix(order: IndexOrder, bound: Bound) returns (out: seq<byte>)
    ensures out == PrefixKey(PartsOf(order), bound)
  {
    hide PartKey;
    var parts := PartsOf(order);
    out := [];
    var i := 0;
    while i < 3
      invariant i <= 3
      invariant out + PrefixKey(parts[i..], bound) == PrefixKey(parts, bound)
    {
      assert parts[i..][1..] == parts[i + 1..];
      var key := PartKey(parts[i], bound);
      if key.None? { break; }
      out, i := out + key.value, i + 1;
    }
  }

  function Whole(f: Fact): Bound { Bound(Some(f.e), Some(f.a), Some(f.v)) }

  /** The `(e, a, v)` components of a key, in index order. */
  function Components(order: IndexOrder, f: Fact): seq<byte> {
    match order
    case Eavt => U64Key(f.e) + (U64Key(f.a) + Encode(f.v))
    case Aevt => U64Key(f.a) + (U64Key(f.e) + Encode(f.v))
    case Avet => U64Key(f.a) + (Encode(f.v) + U64Key(f.e))
    case Vaet => Encode(f.v) + (U64Key(f.a) + U64Key(f.e))
  }

  lemma WholePrefixIsComponents(order: IndexOrder, f: Fact)
    ensures PrefixKey(PartsOf(order), Whole(f)) == Components(order, f)
  {
    var parts, b := PartsOf(order), Whole(f);
    assert parts[1..] == [parts[1], parts[2]] && parts[1..][1..] == [parts[2]] && parts[1..][1..][1..] == [];
    assert PrefixKey([parts[2]], b) == PartKey(parts[2], b).value + PrefixKey([], b);
    assert PrefixKey(parts[1..], b) == PartKey(parts[1], b).value + PrefixKey([parts[2]], b);
  }

  /** The trailing word: the transaction id shifted left over the added bit, in 64 bits. */
  function TxAdded(tx: EntityId, added: bool): u64 {
    (2 * tx) % U64_LIMIT + (if added then 1 else 0)
  }

  /** `Datom::key`. */
  function Key(order: IndexOrder, d: Datom): seq<byte> {
    Components(order, d.Eav()) + U64Key(TxAdded(d.tx, d.added))
  }

  /** `key_components`. */
  function KeyComponents(key: seq<byte>): seq<byte> {
    key[..if |key| < 8 then 0 else |key| - 8]
  }

  /** A retraction shares the component prefix of the assertion it cancels, and only of that. */
  lemma SharedComponents(order: IndexOrder, d: Datom, c: Datom)
    ensures KeyComponents(Key(order, d)) == Components(order, d.Eav())
    ensures KeyComponents(Key(order, d)) == KeyComponents(Key(order, c)) <==> d.Eav() == c.Eav()
  {
    assert KeyComponents(Key(order, d)) == Components(order, d.Eav());
    assert KeyComponents(Key(order, c)) == Components(order, c.Eav());
    ComponentOrder(order, d.Eav(), c.Eav());
  }

  // ---------------------------------------------------------------------
  // Order
  // ---------------------------------------------------------------------

  /** Facts compared component by component, in index order. */
  predicate FactLess(order: IndexOrder, f: Fact, g: Fact) {
    match order
    case Eavt => f.e < g.e || (f.e == g.e && (f.a < g.a || (f.a == g.a && ValueLess(f.v, g.v))))
    case Aevt => f.a < g.a || (f.a == g.a && (f.e < g.e || (f.e == g.e && ValueLess(f.v, g.v))))
    case Avet => f.a < g.a || (f.a == g.a && (ValueLess(f.v, g.v) || (f.v == g.v && f.e < g.e)))
    case Vaet => ValueLess(f.v, g.v) || (f.v == g.v && (f.a < g.a || (f.a == g.a && f.e < g.e)))
  }

  /** Same fact decided by transaction, retraction before assertion within one. */
  predicate DatomLess(order: IndexOrder, d: Datom, c: Datom) {
    || FactLess(order, d.Eav(), c.Eav())
    || (d.Eav() == c.Eav() && (d.tx < c.tx || (d.tx == c.tx && !d.added && c.added)))
  }

  lemma FactLessIsTotal(order: IndexOrder, f: Fact, g: Fact)
    ensures f == g || FactLess(order, f, g) || FactLess(order, g, f)
    ensures !(f == g && FactLess(order, f, g)) && !(FactLess(order, f, g) && FactLess(order, g, f))
  {
    ValueLessIsTotal(f.v, g.v);
  }

  lemma FactLessDiverges(order: IndexOrder, f: Fact, g: Fact)
    requires FactLess(order, f, g)
    ensures Diverges(Components(order, f), Components(order, g))
  {
    var fe, fa, fv := U64Key(f.e), U64Key(f.a), Encode(f.v);
    var ge, ga, gv := U64Key(g.e), U64Key(g.a), Encode(g.v);
    if f.e < g.e { U64KeyOrders(f.e, g.e); }
    if f.a < g.a { U64KeyOrders(f.a, g.a); }
    if ValueLess(f.v, g.v) { EncodeOrders(f.v, g.v); }
    match order {
      case Eavt => ThreeDiverge(fe, fa, fv, ge, ga, gv);
      case Aevt => ThreeDiverge(fa, fe, fv, ga, ge, gv);
      case Avet => ThreeDiverge(fa, fv, fe, ga, gv, ge);
      case Vaet => ThreeDiverge(fv, fa, fe, gv, ga, ge);
    }
  }

  lemma ThreeDiverge(x: seq<byte>, y: seq<byte>, z: seq<byte>, x': seq<byte>, y': seq<byte>, z': seq<byte>)
    requires Diverges(x, x') || (x == x' && (Diverges(y, y') || (y == y' && Diverges(z, z'))))
    ensures Diverges(x + (y + z), x' + (y' + z'))
  {
    if Diverges(x, x') {
      DivergesExtends(x, x', y + z, y' + z');
    } else {
      DivergesAfter(x, y + z, y' + z');
      if Diverges(y, y') {
        DivergesExtends(y, y', z, z');
      } else {
        DivergesAfter(y, z, z');
      }
    }
  }

  /** Component bytes sort as the components do, and tell every two facts apart. */
  lemma ComponentOrder(order: IndexOrder, f: Fact, g: Fact)
    ensures FactLess(order, f, g) <==> Less(Components(order, f), Components(order, g))
    ensures f == g <==> Components(order, f) == Components(order, g)
  {
    FactLessIsTotal(order, f, g);
    LessIsTotal(Components(order, f), Components(order, g));
    if FactLess(order, f, g) {
      FactLessDiverges(order, f, g);
      DivergesExtends(Components(order, f), Components(order, g), [], []);
      assert Components(order, f) + [] == Components(order, f);
      assert Components(order, g) + [] == Components(order, g);
    } else if FactLess(order, g, f) {
      FactLessDiverges(order, g, f);
      DivergesExtends(Components(order, g), Components(order, f), [], []);
      assert Components(order, f) + [] == Components(order, f);
      assert Components(order, g) + [] == Components(order, g);
    }
  }

  lemma DatomLessDiverges(order: IndexOrder, d: Datom, c: Datom)
    requires d.tx < U63_LIMIT && c.tx < U63_LIMIT && DatomLess(order, d, c)
    ensures Diverges(Key(order, d), Key(order, c))
  {
    var f, g := d.Eav(), c.Eav();
    if FactLess(order, f, g) {
      FactLessDiverges(order, f, g);
      DivergesExtends(Components(order, f), Components(order, g),
                      U64Key(TxAdded(d.tx, d.added)), U64Key(TxAdded(c.tx, c.added)));
    } else {
      U64KeyOrders(TxAdded(d.tx, d.added), TxAdded(c.tx, c.added));
      DivergesAfter(Components(order, f), U64Key(TxAdded(d.tx, d.added)), U64Key(TxAdded(c.tx, c.added)));
    }
  }

  /** Full keys sort by components, then transaction, then retraction before assertion. */
  lemma KeyOrder(order: IndexOrder, d: Datom, c: Datom)
    requires d.tx < U63_LIMIT && c.tx < U63_LIMIT
    ensures DatomLess(order, d, c) <==> Less(Key(order, d), Key(order, c))
    ensures d == c <==> Key(order, d) == Key(order, c)
  {
    FactLessIsTotal(order, d.Eav(), c.Eav());
    LessIsTotal(Key(order, d), Key(order, c));
    if DatomLess(order, d, c) {
      DatomLessDiverges(order, d, c);
      DivergesExtends(Key(order, d), Key(order, c), [], []);
      assert Key(order, d) + [] == Key(order, d) && Key(order, c) + [] == Key(order, c);
    } else if DatomLess(order, c, d) {
      DatomLessDiverges(order, c, d);
      DivergesExtends(Key(order, c), Key(order, d), [], []);
      assert Key(order, d) + [] == Key(order, d) && Key(order, c) + [] == Key(order, c);
    }
  }

  // ---------------------------------------------------------------------
  // Decoding keys
  // ---------------------------------------------------------------------

  function DecodeId(input: seq<byte>): Decoded<EntityId> {
    if |input| < 8 then Err(Truncated) else Ok(DecodeU64(input[..8]), 8)
  }

  /** The rest of the input once `n` bytes are consumed. */
  function Drop(input: seq<byte>, n: nat): seq<byte> {
    if n <= |input| then input[n..] else []
  }

  function DecodeComponents(order: IndexOrder, input: seq<byte>): Decoded<Fact> {
    match order
    case Eavt =>
      var (e, _) :- DecodeId(input);
      var (a, _) :- DecodeId(Drop(input, 8));
      var (v, n) :- Decode(Drop(input, 16));
      Ok(Fact(e, a, v), 16 + n)
    case Aevt =>
      var (a, _) :- DecodeId(input);
      var (e, _) :- DecodeId(Drop(input, 8));
      var (v, n) :- Decode(Drop(input, 16));
      Ok(Fact(e, a, v), 16 + n)
    case Avet =>
      var (a, _) :- DecodeId(input);
      var (v, n) :- Decode(Drop(input, 8));
      var (e, _) :- DecodeId(Drop(input, 8 + n));
      Ok(Fact(e, a, v), 16 + n)
    case Vaet =>
      var (v, n) :- Decode(input);
      var (a, _) :- DecodeId(Drop(input, n));
      var (e, _) :- DecodeId(Drop(input, n + 8));
      Ok(Fact(e, a, v), 16 + n)
  }

  /** `Datom::from_key`. */
  function FromKey(order: IndexOrder, input: seq<byte>): Decoded<Datom> {
    var (f, n) :- DecodeComponents(order, input);
    var (w, _) :- DecodeId(Drop(input, n));
    if n + 8 != |input| then Err(Trailing)
    else Ok(Datom(f.e, f.a, f.v, w / 2, w % 2 == 1), |input|)
  }

  lemma IdInverts(x: EntityId, rest: seq<byte>)
    ensures DecodeId(U64Key(x) + rest) == Ok(x, 8)
    ensures Drop(U64Key(x) + rest, 8) == rest
  {
    Widths();
    BigEndianInverts(8, x);
    assert (U64Key(x) + rest)[..8] == U64Key(x);
  }

  lemma DropTwice(input: seq<byte>, m: nat, n: nat)
    ensures Drop(Drop(input, m), n) == Drop(input, m + n)
  {}

  lemma DropHead(x: seq<byte>, rest: seq<byte>)
    ensures Drop(x + rest, |x|) == rest
  {}

  lemma IdsFirstInvert(x: EntityId, y: EntityId, v: Value, rest: seq<byte>)
    ensures var input := U64Key(x) + (U64Key(y) + Encode(v)) + rest;
            && DecodeId(input) == Ok(x, 8)
            && DecodeId(Drop(input, 8)) == Ok(y, 8)
            && Decode(Drop(input, 16)) == Ok(v, |Encode(v)|)
  {
    var input := U64Key(x) + (U64Key(y) + Encode(v)) + rest;
    var tail := Encode(v) + rest;
    assert input == U64Key(x) + (U64Key(y) + tail);
    IdInverts(x, U64Key(y) + tail);
    IdInverts(y, tail);
    DropTwice(input, 8, 8);
    DecodeInvertsEncode(v, rest);
  }

  lemma AvetInverts(f: Fact, rest: seq<byte>)
    ensures DecodeComponents(Avet, Components(Avet, f) + rest) == Ok(f, |Components(Avet, f)|)
  {
    hide U64Key, Encode, Decode, DecodeId;
    var input := Components(Avet, f) + rest;
    var tail := U64Key(f.e) + rest;
    assert input == U64Key(f.a) + (Encode(f.v) + tail);
    IdInverts(f.a, Encode(f.v) + tail);
    DecodeInvertsEncode(f.v, tail);
    DropHead(Encode(f.v), tail);
    DropTwice(input, 8, |Encode(f.v)|);
    IdInverts(f.e, rest);
  }

  lemma VaetInverts(f: Fact, rest: seq<byte>)
    ensures DecodeComponents(Vaet, Components(Vaet, f) + rest) == Ok(f, |Components(Vaet, f)|)
  {
    hide U64Key, Encode, Decode, DecodeId;
    var input := Components(Vaet, f) + rest;
    var tail := U64Key(f.a) + (U64Key(f.e) + rest);
    assert input == Encode(f.v) + tail;
    DecodeInvertsEncode(f.v, tail);
    DropHead(Encode(f.v), tail);
    IdInverts(f.a, U64Key(f.e) + rest);
    DropTwice(input, |Encode(f.v)|, 8);
    IdInverts(f.e, rest);
  }

  lemma ComponentsInvert(order: IndexOrder, f: Fact, rest: seq<byte>)
    ensures DecodeComponents(order, Components(order, f) + rest) == Ok(f, |Components(order, f)|)
    ensures Drop(Components(order, f) + rest, |Components(order, f)|) == rest
  {
    DropHead(Components(order, f), rest);
    match order {
      case Eavt => IdsFirstInvert(f.e, f.a, f.v, rest);
      case Aevt => IdsFirstInvert(f.a, f.e, f.v, rest);
      case Avet => AvetInverts(f, rest);
      case Vaet => VaetInverts(f, rest);
    }
  }

  lemma TxWordInverts(d: Datom)
    ensures d.tx < U63_LIMIT <==> TxAdded(d.tx, d.added) / 2 == d.tx
    ensures TxAdded(d.tx, d.added) % 2 == 1 <==> d.added
  {}

  /** A key gives its datom back exactly when the transaction id leaves room for the added bit. */
  lemma KeyRoundTrip(order: IndexOrder, d: Datom)
    ensures FromKey(order, Key(order, d)) == Ok(d, |Key(order, d)|) <==> d.tx < U63_LIMIT
  {
    var word := TxAdded(d.tx, d.added);
    ComponentsInvert(order, d.Eav(), U64Key(word));
    IdInverts(word, []);
    assert U64Key(word) + [] == U64Key(word);
    TxWordInverts(d);
  }

  /** A key followed by anything is refused as trailing. */
  lemma KeyRejectsTrailing(order: IndexOrder, d: Datom, extra: seq<byte>)
    requires extra != []
    ensures FromKey(order, Key(order, d) + extra) == Err(Trailing)
  {
    hide Components, DecodeComponents, U64Key, DecodeId;
    var word := TxAdded(d.tx, d.added);
    assert Key(order, d) + extra == Components(order, d.Eav()) + (U64Key(word) + extra);
    ComponentsInvert(order, d.Eav(), U64Key(word) + extra);
    IdInverts(word, extra);
  }
}
