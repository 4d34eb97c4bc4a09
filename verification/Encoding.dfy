/** The sortable, self-delimiting encoding of values. */
module Encoding {
  import opened Bytes
  import opened Values

  datatype DecodeError =
    Truncated | UnknownTag(tag: byte) | InvalidEscape | InvalidUtf8 | Trailing | InvalidValueType(vtag: byte)

  datatype Decoded<+T> = Ok(value: T, used: nat) | Err(error: DecodeError) {
    predicate IsFailure() { Err? }

    function PropagateFailure<U>(): Decoded<U>
      requires Err?
    {
      Err(error)
    }

    function Extract(): (T, nat)
      requires Ok?
    {
      (value, used)
    }
  }

  const BOOL: byte := 0x10
  const LONG: byte := 0x20
  const DOUBLE: byte := 0x30
  const INSTANT: byte := 0x40
  const UUID: byte := 0x50
  const KEYWORD: byte := 0x60
  const STR: byte := 0x70
  const BYTES: byte := 0x80
  const REF: byte := 0x90
  const SEALED: byte := 0xA0

  // ---------------------------------------------------------------------
  // Encoding
  // ---------------------------------------------------------------------

  /** Bytes with every zero written `00 FF`, closed by `00 00`. */
  function Escaped(b: seq<byte>): seq<byte> {
    if b == [] then [0, 0]
    else (if b[0] == 0 then [0, 0xFF] else [b[0]]) + Escaped(b[1..])
  }

  /** The two's-complement word of `x`. */
  function Word(x: i64): u64 { if x < 0 then x + U64_LIMIT else x }

  function FlipSign(w: u64): u64 { if w < U63_LIMIT then w + U63_LIMIT else w - U63_LIMIT }

  function U64Key(x: u64): (b: seq<byte>) ensures |b| == 8 { BigEndian(8, x) }

  function I64Key(x: i64): (b: seq<byte>) ensures |b| == 8 { BigEndian(8, FlipSign(Word(x))) }

  function Tag(v: Value): byte {
    match v
    case Bool(_) => BOOL
    case Long(_) => LONG
    case Double(_) => DOUBLE
    case Instant(_) => INSTANT
    case Uuid(_) => UUID
    case Keyword(_) => KEYWORD
    case Str(_) => STR
    case Bytes(_) => BYTES
    case Ref(_) => REF
    case Sealed(_, _, _, _) => SEALED
  }

  function Payload(v: Value): seq<byte> {
    match v
    case Bool(x) => [if x then 1 else 0]
    case Long(x) => I64Key(x)
    case Double(x) => U64Key(SortableBits(x))
    case Instant(x) => I64Key(x)
    case Uuid(x) => BigEndian(16, x)
    case Keyword(x) => U64Key(x)
    case Str(x) => Escaped(x)
    case Bytes(x) => Escaped(x)
    case Ref(x) => U64Key(x)
    case Sealed(c, e, t, x) => U64Key(c) + (BigEndian(4, e) + ([TypeTag(t)] + Escaped(x)))
  }

  /** `encode_value`. */
  function Encode(v: Value): seq<byte> { [Tag(v)] + Payload(v) }

  /** The growing `Vec<u8>` the encoders append to. */
  class Buffer {
    var out: seq<byte>

    constructor ()
      ensures out == []
    {
      out := [];
    }

    method Push(b: byte)
      modifies this
      ensures out == old(out) + [b]
    {
      out := out + [b];
    }

    method Extend(b: seq<byte>)
      modifies this
      ensures out == old(out) + b
    {
      out := out + b;
    }

    method EncodeEscaped(b: seq<byte>)
      modifies this
      ensures out == old(out) + Escaped(b)
    {
      var i := 0;
      while i < |b|
        invariant i <= |b|
        invariant out + Escaped(b[i..]) == old(out) + Escaped(b)
      {
        assert b[i..][1..] == b[i + 1..];
        if b[i] == 0 {
          Extend([0, 0xFF]);
        } else {
          Push(b[i]);
        }
        i := i + 1;
      }
      Extend([0, 0]);
    }

    /** `Value::encode_into`. */
    method EncodeValue(v: Value)
      modifies this
      ensures out == old(out) + Encode(v)
    {
      Push(Tag(v));
      EncodePayload(v);
    }

    method EncodePayload(v: Value)
      modifies this
      ensures out == old(out) + Payload(v)
    {
      match v {
        case Bool(x) => Push(if x then 1 else 0);
        case Long(x) => Extend(I64Key(x));
        case Double(x) => Extend(U64Key(SortableBits(x)));
        case Instant(x) => Extend(I64Key(x));
        case Uuid(x) => Extend(BigEndian(16, x));
        case Keyword(x) => Extend(U64Key(x));
        case Str(x) => EncodeEscaped(x);
        case Bytes(x) => EncodeEscaped(x);
        case Ref(x) => Extend(U64Key(x));
        case Sealed(c, e, t, x) => EncodeSealed(c, e, t, x);
      }
    }

    method EncodeSealed(c: EntityId, e: u32, t: ValueType, body: seq<byte>)
      modifies this
      ensures out == old(out) + Payload(Sealed(c, e, t, body))
    {
      Extend(U64Key(c));
      Extend(BigEndian(4, e));
      Push(TypeTag(t));
      EncodeEscaped(body);
    }
  }

  // ---------------------------------------------------------------------
  // Order: the encoding sorts exactly as the values do, and is prefix-free
  // ---------------------------------------------------------------------

  lemma {:induction false} EscapedOrders(a: seq<byte>, b: seq<byte>)
    requires Less(a, b)
    ensures Diverges(Escaped(a), Escaped(b))
    decreases |a|
  {
    if a != [] && a[0] == b[0] {
      EscapedOrders(a[1..], b[1..]);
      var head := if a[0] == 0 then [0, 0xFF] else [a[0]];
      DivergesAfter(head, Escaped(a[1..]), Escaped(b[1..]));
    } else {
      assert b != [] && Escaped(b)[0] == b[0];
      assert a != [] ==> Escaped(a)[0] == a[0];
      if a == [] && b[0] == 0 {
        assert Escaped(b)[1..][0] == 0xFF && Escaped(a)[1..][0] == 0;
      }
    }
  }

  lemma U64KeyOrders(x: u64, y: u64)
    requires x < y
    ensures Diverges(U64Key(x), U64Key(y))
  {
    Widths();
    BigEndianOrders(8, x, y);
  }

  lemma I64KeyOrders(x: i64, y: i64)
    requires x < y
    ensures Diverges(I64Key(x), I64Key(y))
  {
    Widths();
    BigEndianOrders(8, FlipSign(Word(x)), FlipSign(Word(y)));
  }

  lemma SealedOrders(v: Value, w: Value)
    requires v.Sealed? && w.Sealed? && ValueLess(v, w)
    ensures Diverges(Payload(v), Payload(w))
  {
    Widths();
    var vRest, wRest := [TypeTag(v.vtype)] + Escaped(v.body), [TypeTag(w.vtype)] + Escaped(w.body);
    var vTail, wTail := BigEndian(4, v.epoch) + vRest, BigEndian(4, w.epoch) + wRest;
    if v.protection < w.protection {
      U64KeyOrders(v.protection, w.protection);
      DivergesExtends(U64Key(v.protection), U64Key(w.protection), vTail, wTail);
    } else {
      DivergesAfter(U64Key(v.protection), vTail, wTail);
      if v.epoch < w.epoch {
        BigEndianOrders(4, v.epoch, w.epoch);
        DivergesExtends(BigEndian(4, v.epoch), BigEndian(4, w.epoch), vRest, wRest);
      } else {
        DivergesAfter(BigEndian(4, v.epoch), vRest, wRest);
        if v.vtype == w.vtype {
          EscapedOrders(v.body, w.body);
          DivergesAfter([TypeTag(v.vtype)], Escaped(v.body), Escaped(w.body));
        }
      }
    }
  }

  lemma PayloadOrders(v: Value, w: Value)
    requires Rank(v) == Rank(w) && ValueLess(v, w)
    ensures Diverges(Payload(v), Payload(w))
  {
    match v {
      case Bool(_) =>
      case Long(x) => I64KeyOrders(x, w.n);
      case Double(x) => U64KeyOrders(SortableBits(x), SortableBits(w.bits));
      case Instant(x) => I64KeyOrders(x, w.ms);
      case Uuid(x) => Widths(); BigEndianOrders(16, x, w.uuid);
      case Keyword(x) => U64KeyOrders(x, w.kw);
      case Str(x) => EscapedOrders(x, w.text);
      case Bytes(x) => EscapedOrders(x, w.data);
      case Ref(x) => U64KeyOrders(x, w.entity);
      case Sealed(_, _, _, _) => SealedOrders(v, w);
    }
  }

  /** A smaller value's bytes come first, and decide it at a byte both encodings have. */
  lemma EncodeOrders(v: Value, w: Value)
    requires ValueLess(v, w)
    ensures Diverges(Encode(v), Encode(w))
  {
    if Rank(v) == Rank(w) {
      PayloadOrders(v, w);
      DivergesAfter([Tag(v)], Payload(v), Payload(w));
    } else {
      assert Rank(v) < Rank(w);
      assert Tag(v) == 16 * (1 + Rank(v)) && Tag(w) == 16 * (1 + Rank(w));
    }
  }

  /** Byte order is value order, in both directions, and no encoding is a prefix of another. */
  lemma EncodingIsOrderPreserving(v: Value, w: Value)
    ensures ValueLess(v, w) <==> Less(Encode(v), Encode(w))
    ensures v == w <==> Encode(v) == Encode(w)
    ensures Encode(v) <= Encode(w) <==> v == w
  {
    ValueLessIsTotal(v, w);
    LessIsTotal(Encode(v), Encode(w));
    if ValueLess(v, w) {
      EncodeOrders(v, w);
      DivergesExtends(Encode(v), Encode(w), [], []);
    } else if ValueLess(w, v) {
      EncodeOrders(w, v);
      DivergesExtends(Encode(w), Encode(v), [], []);
    }
  }

  // ---------------------------------------------------------------------
  // Decoding
  // ---------------------------------------------------------------------

  function Unescape(input: seq<byte>): Decoded<seq<byte>> {
    if input == [] then Err(Truncated)
    else if input[0] != 0 then Prepend(input[0], 1, Unescape(input[1..]))
    else if |input| > 1 && input[1] == 0 then Ok([], 2)
    else if |input| > 1 && input[1] == 0xFF then Prepend(0, 2, Unescape(input[2..]))
    else Err(InvalidEscape)
  }

  function Prepend(b: byte, width: nat, rest: Decoded<seq<byte>>): Decoded<seq<byte>> {
    match rest
    case Ok(bytes, used) => Ok([b] + bytes, used + width)
    case Err(_) => rest
  }

  /** What the scan of `decode_escaped` has left to report once `out` is decoded and `i` bytes consumed. */
  function Resumed(out: seq<byte>, i: nat, rest: Decoded<seq<byte>>): Decoded<seq<byte>> {
    match rest
    case Ok(bytes, used) => Ok(out + bytes, i + used)
    case Err(_) => rest
  }

  lemma ResumedStep(out: seq<byte>, i: nat, b: byte, width: nat, rest: Decoded<seq<byte>>)
    ensures Resumed(out, i, Prepend(b, width, rest)) == Resumed(out + [b], i + width, rest)
  {
    if rest.Ok? { assert out + ([b] + rest.value) == (out + [b]) + rest.value; }
  }

  /** `decode_escaped`: the scan over an index, against the recursive reading above. */
  method DecodeEscaped(input: seq<byte>) returns (r: Decoded<seq<byte>>)
    ensures r == Unescape(input)
  {
    var out: seq<byte> := [];
    var i := 0;
    assert input[0..] == input;
    assert Unescape(input).Ok? ==> [] + Unescape(input).value == Unescape(input).value;
    while i < |input|
      invariant i <= |input|
      invariant Unescape(input) == Resumed(out, i, Unescape(input[i..]))
    {
      assert input[i..][1..] == input[i + 1..];
      assert input[i..][0] == input[i] && (i + 1 < |input| ==> input[i..][1] == input[i + 1]);
      if input[i] == 0 {
        if i + 1 < |input| && input[i + 1] == 0 {
          assert out + [] == out;
          return Ok(out, i + 2);
        } else if i + 1 < |input| && input[i + 1] == 0xFF {
          assert input[i..][2..] == input[i + 2..];
          ResumedStep(out, i, 0, 2, Unescape(input[i + 2..]));
          out, i := out + [0], i + 2;
        } else {
          return Err(InvalidEscape);
        }
      } else {
        ResumedStep(out, i, input[i], 1, Unescape(input[i + 1..]));
        out, i := out + [input[i]], i + 1;
      }
    }
    return Err(Truncated);
  }

  function TypeFromTag(tag: byte): Decoded<ValueType> {
    match tag
    case 0 => Ok(BoolType, 1)
    case 1 => Ok(LongType, 1)
    case 2 => Ok(DoubleType, 1)
    case 3 => Ok(InstantType, 1)
    case 4 => Ok(UuidType, 1)
    case 5 => Ok(KeywordType, 1)
    case 6 => Ok(StrType, 1)
    case 7 => Ok(BytesType, 1)
    case 8 => Ok(RefType, 1)
    case _ => Err(InvalidValueType(tag))
  }

  function DecodeU64(b: seq<byte>): u64
    requires |b| == 8
  {
    Widths(); FromBigEndianFits(b); FromBigEndian(b)
  }

  function DecodeI64(b: seq<byte>): i64
    requires |b| == 8
  {
    var w := FlipSign(DecodeU64(b));
    if w < U63_LIMIT then w else w - U64_LIMIT
  }

  function DecodeDoubleBits(b: seq<byte>): u64
    requires |b| == 8
  {
    var s := DecodeU64(b);
    if s < U63_LIMIT then U64_LIMIT - 1 - s else s - U63_LIMIT
  }

  function DecodeU32(b: seq<byte>): u32
    requires |b| == 4
  {
    Widths(); FromBigEndianFits(b); FromBigEndian(b)
  }

  function DecodeU128(b: seq<byte>): u128
    requires |b| == 16
  {
    Widths(); FromBigEndianFits(b); FromBigEndian(b)
  }

  /** `decode_value`: the value at the front of `input` and how many bytes it took. */
  function Decode(input: seq<byte>): Decoded<Value> {
    if input == [] then Err(Truncated) else
    var tag, rest := input[0], input[1..];
    if tag == BOOL then
      if |rest| < 1 then Err(Truncated) else Ok(Bool(rest[0] != 0), 2)
    else if tag == LONG || tag == DOUBLE || tag == INSTANT || tag == KEYWORD || tag == REF then
      if |rest| < 8 then Err(Truncated) else Ok(DecodeWord(tag, rest[..8]), 9)
    else if tag == UUID then
      if |rest| < 16 then Err(Truncated) else Ok(Uuid(DecodeU128(rest[..16])), 17)
    else if tag == STR || tag == BYTES then DecodeString(tag, rest)
    else if tag == SEALED then DecodeSealed(rest)
    else Err(UnknownTag(tag))
  }

  function DecodeWord(tag: byte, word: seq<byte>): Value
    requires |word| == 8
  {
    if tag == LONG then Long(DecodeI64(word))
    else if tag == DOUBLE then Double(DecodeDoubleBits(word))
    else if tag == INSTANT then Instant(DecodeI64(word))
    else if tag == KEYWORD then Keyword(DecodeU64(word))
    else Ref(DecodeU64(word))
  }

  function DecodeString(tag: byte, rest: seq<byte>): Decoded<Value> {
    var (bytes, used) :- Unescape(rest);
    if tag == BYTES then Ok(Bytes(bytes), used + 1)
    else if Utf8(bytes) then Ok(Str(bytes), used + 1)
    else Err(InvalidUtf8)
  }

  function DecodeSealed(rest: seq<byte>): Decoded<Value> {
    if |rest| < 13 then Err(Truncated) else
    var (vtype, _) :- TypeFromTag(rest[12]);
    var (body, used) :- Unescape(rest[13..]);
    Ok(Sealed(DecodeU64(rest[..8]), DecodeU32(rest[8..12]), vtype, body), 1 + 13 + used)
  }

  lemma {:induction false} UnescapeInverts(b: seq<byte>, rest: seq<byte>)
    ensures Unescape(Escaped(b) + rest) == Ok(b, |Escaped(b)|)
    decreases |b|
  {
    var input := Escaped(b) + rest;
    if b == [] {
      assert input[0] == 0 && input[1] == 0;
    } else {
      UnescapeInverts(b[1..], rest);
      var tail := Escaped(b[1..]) + rest;
      assert b == [b[0]] + b[1..];
      if b[0] == 0 {
        assert input[2..] == tail;
      } else {
        assert input[1..] == tail;
      }
    }
  }

  predicate IsWord(v: Value) { v.Long? || v.Double? || v.Instant? || v.Keyword? || v.Ref? }

  lemma WordInverts(v: Value)
    requires IsWord(v)
    ensures |Payload(v)| == 8 && DecodeWord(Tag(v), Payload(v)) == v
  {
    Widths();
    match v {
      case Long(x) => BigEndianInverts(8, FlipSign(Word(x)));
      case Double(x) => BigEndianInverts(8, SortableBits(x));
      case Instant(x) => BigEndianInverts(8, FlipSign(Word(x)));
      case Keyword(x) => BigEndianInverts(8, x);
      case Ref(x) => BigEndianInverts(8, x);
    }
  }

  lemma SealedInverts(v: Value, rest: seq<byte>)
    requires v.Sealed?
    ensures DecodeSealed(Payload(v) + rest) == Ok(v, |Encode(v)|)
  {
    hide Pow256, BigEndian, FromBigEndian, Escaped, Unescape, TypeTag;
    Widths();
    TypeTagReads(v.vtype);
    var tail := Escaped(v.body) + rest;
    BigEndianInverts(8, v.protection);
    BigEndianInverts(4, v.epoch);
    UnescapeInverts(v.body, rest);
    assert Payload(v) + rest == U64Key(v.protection) + (BigEndian(4, v.epoch) + ([TypeTag(v.vtype)] + tail));
    SealedFields(U64Key(v.protection), BigEndian(4, v.epoch), TypeTag(v.vtype), tail);
  }

  lemma TypeTagReads(t: ValueType)
    ensures TypeFromTag(TypeTag(t)) == Ok(t, 1)
  {}

  lemma SealedFields(c: seq<byte>, e: seq<byte>, t: byte, tail: seq<byte>)
    requires |c| == 8 && |e| == 4
    ensures var input := c + (e + ([t] + tail));
            input[..8] == c && input[8..12] == e && input[12] == t && input[13..] == tail && |input| == 13 + |tail|
  {}

  /** Decoding undoes encoding and stops exactly where the value ends, whatever follows it. */
  lemma DecodeInvertsEncode(v: Value, rest: seq<byte>)
    ensures Decode(Encode(v) + rest) == Ok(v, |Encode(v)|)
  {
    hide BigEndian, FromBigEndian, Escaped, Unescape, DecodeWord, DecodeSealed;
    var tail := Payload(v) + rest;
    assert (Encode(v) + rest)[0] == Tag(v) && (Encode(v) + rest)[1..] == tail;
    if IsWord(v) {
      WordInverts(v);
      assert tail[..8] == Payload(v);
    } else {
      match v {
        case Bool(_) =>
        case Uuid(x) => Widths(); BigEndianInverts(16, x); assert tail[..16] == Payload(v);
        case Str(x) => UnescapeInverts(x, rest);
        case Bytes(x) => UnescapeInverts(x, rest);
        case Sealed(_, _, _, _) => SealedInverts(v, rest);
      }
    }
  }

  // ---------------------------------------------------------------------
  // The converse: which byte strings decode
  // ---------------------------------------------------------------------

  lemma {:induction false} UnescapeIsCanonical(input: seq<byte>)
    requires Unescape(input).Ok?
    ensures Unescape(input).used <= |input|
    ensures input[..Unescape(input).used] == Escaped(Unescape(input).value)
    decreases |input|
  {
    if input[0] != 0 {
      UnescapeIsCanonical(input[1..]);
      var used := Unescape(input[1..]).used;
      assert input[..used + 1] == [input[0]] + input[1..][..used];
    } else if input[1] == 0xFF {
      UnescapeIsCanonical(input[2..]);
      var used := Unescape(input[2..]).used;
      assert input[..used + 2] == [0, 0xFF] + input[2..][..used];
    }
  }

  lemma {:induction false} FromBigEndianInverts(b: seq<byte>)
    ensures BigEndian(|b|, FromBigEndian(b)) == b
    decreases |b|
  {
    if b != [] { FromBigEndianInverts(b[..|b| - 1]); }
  }

  /** The loosest reading `decode_value` makes: any non-zero byte after the boolean tag is `true`. */
  predicate LooseBool(input: seq<byte>) {
    |input| >= 2 && input[0] == BOOL && input[1] > 1
  }

  lemma SealedIsCanonical(rest: seq<byte>)
    requires DecodeSealed(rest).Ok?
    ensures 1 <= DecodeSealed(rest).used <= |rest| + 1
    ensures DecodeSealed(rest).value.Sealed?
    ensures rest[..DecodeSealed(rest).used - 1] == Payload(DecodeSealed(rest).value)
  {
    hide Pow256, BigEndian, FromBigEndian, Escaped, Unescape;
    Widths();
    FromBigEndianInverts(rest[..8]);
    FromBigEndianInverts(rest[8..12]);
    UnescapeIsCanonical(rest[13..]);
    var used := Unescape(rest[13..]).used;
    assert rest[..13 + used] == rest[..8] + (rest[8..12] + ([rest[12]] + rest[13..][..used]));
  }

  /** Every accepted input is the encoding of what it decodes to, except a loosely written `true`. */
  lemma DecodeIsCanonical(input: seq<byte>)
    requires Decode(input).Ok?
    ensures Decode(input).used <= |input|
    ensures input[..Decode(input).used] == Encode(Decode(input).value) <==> !LooseBool(input)
  {
    hide Pow256, BigEndian, FromBigEndian, Escaped, Unescape, DecodeSealed;
    Widths();
    var tag, rest := input[0], input[1..];
    var r := Decode(input);
    if tag == BOOL {
      assert input[..2] == [tag, rest[0]];
    } else if tag == STR || tag == BYTES {
      UnescapeIsCanonical(rest);
      assert input[..r.used] == [tag] + rest[..r.used - 1];
    } else if tag == SEALED {
      SealedIsCanonical(rest);
      assert input[..r.used] == [tag] + rest[..r.used - 1];
    } else {
      FromBigEndianInverts(rest[..r.used - 1]);
      assert input[..r.used] == [tag] + rest[..r.used - 1];
    }
  }

  /** No encoding cut short decodes to anything. */
  lemma PrefixRefused(v: Value, n: nat)
    requires n < |Encode(v)|
    ensures Decode(Encode(v)[..n]).Err?
  {
    hide Encode, Decode;
    var cut := Encode(v)[..n];
    BoolIsTwoBytes(v);
    if Decode(cut).Ok? {
      DecodeIsCanonical(cut);
      if !LooseBool(cut) { EncodingIsOrderPreserving(Decode(cut).value, v); }
    }
  }

  lemma BoolIsTwoBytes(v: Value)
    ensures |Encode(v)| > 0 && (Encode(v)[0] == BOOL ==> |Encode(v)| == 2)
  {}

  /** A tag is unknown exactly when it is none of the ten. */
  lemma UnknownTagIsExact(input: seq<byte>, tag: byte)
    ensures Decode(input) == Err(UnknownTag(tag))
            <==> (&& input != [] && input[0] == tag
                  && tag !in {0x10, 0x20, 0x30, 0x40, 0x50, 0x60, 0x70, 0x80, 0x90, 0xA0})
  {
    hide Unescape, DecodeWord, DecodeU128;
    if input != [] && (input[0] == STR || input[0] == BYTES) { UnescapeErrors(input[1..]); }
    if input != [] && input[0] == SEALED && |input| >= 14 { UnescapeErrors(input[14..]); }
  }

  lemma {:induction false} UnescapeErrors(input: seq<byte>)
    ensures Unescape(input).Err? ==> Unescape(input).error == Truncated || Unescape(input).error == InvalidEscape
    decreases |input|
  {
    if input != [] && input[0] != 0 {
      UnescapeErrors(input[1..]);
    } else if |input| > 1 && input[1] == 0xFF {
      UnescapeErrors(input[2..]);
    }
  }
}
