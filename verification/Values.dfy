/** Identifiers and engine values, with the total order the indexes are built on. */
module Values {
  import opened Bytes

  // ---------------------------------------------------------------------
  // Entity ids: a partition above a 42-bit sequence
  // ---------------------------------------------------------------------

  type EntityId = u64

  const SEQUENCE_LIMIT: int := 0x400_0000_0000

  const DB_PARTITION: int := 0
  const TX_PARTITION: int := 1
  const USER_PARTITION: int := 2

  /** `EntityId::new`: the partition is shifted out of the word where it does not fit, the sequence masked. */
  function NewId(partition: u32, sequence: u64): EntityId {
    (partition * SEQUENCE_LIMIT) % U64_LIMIT + sequence % SEQUENCE_LIMIT
  }

  function PartitionOf(id: EntityId): nat { id / SEQUENCE_LIMIT }

  function SequenceOf(id: EntityId): nat { id % SEQUENCE_LIMIT }

  /** An id gives back exactly the partition and sequence that fit its two fields. */
  lemma IdRoundTrip(partition: u32, sequence: u64)
    ensures PartitionOf(NewId(partition, sequence)) == partition
            && SequenceOf(NewId(partition, sequence)) == sequence
            <==> partition < 0x40_0000 && sequence < SEQUENCE_LIMIT
  {
    var high := (partition * SEQUENCE_LIMIT) % U64_LIMIT;
    var p := partition % 0x40_0000;
    assert partition * SEQUENCE_LIMIT == p * SEQUENCE_LIMIT + U64_LIMIT * (partition / 0x40_0000);
    assert high == p * SEQUENCE_LIMIT;
  }

  // ---------------------------------------------------------------------
  // Text
  // ---------------------------------------------------------------------

  predicate Continuation(b: byte) { 0x80 <= b <= 0xBF }

  /** Well-formed UTF-8 (table 3-7 of the Unicode standard), which is what `str::from_utf8` accepts. */
  predicate Utf8(b: seq<byte>) {
    if b == [] then true
    else if b[0] <= 0x7F then Utf8(b[1..])
    else if 0xC2 <= b[0] <= 0xDF then |b| >= 2 && Continuation(b[1]) && Utf8(b[2..])
    else if 0xE0 <= b[0] <= 0xEF then
      && |b| >= 3 && Continuation(b[1]) && Continuation(b[2])
      && (b[0] == 0xE0 ==> b[1] >= 0xA0) && (b[0] == 0xED ==> b[1] <= 0x9F)
      && Utf8(b[3..])
    else if 0xF0 <= b[0] <= 0xF4 then
      && |b| >= 4 && Continuation(b[1]) && Continuation(b[2]) && Continuation(b[3])
      && (b[0] == 0xF0 ==> b[1] >= 0x90) && (b[0] == 0xF4 ==> b[1] <= 0x8F)
      && Utf8(b[4..])
    else false
  }

  type Text = s: seq<byte> | Utf8(s) witness []

  // ---------------------------------------------------------------------
  // Doubles
  // ---------------------------------------------------------------------

  /** `TotalF64::sortable_bits`, on the IEEE 754 bit pattern of the double. */
  function SortableBits(bits: u64): (s: u64) {
    if bits < U63_LIMIT then bits + U63_LIMIT else U64_LIMIT - 1 - bits
  }

  predicate NegativeBits(bits: u64) { bits >= U63_LIMIT }

  function Magnitude(bits: u64): nat { if NegativeBits(bits) then bits - U63_LIMIT else bits }

  /**
   * totalOrder (section 5.10 of IEEE 754-2019) on sign and magnitude: negatives first, larger magnitudes first among
   * them.
   */
  predicate TotalOrderLess(x: u64, y: u64) {
    if NegativeBits(x) != NegativeBits(y) then NegativeBits(x)
    else if NegativeBits(x) then Magnitude(y) < Magnitude(x)
    else Magnitude(x) < Magnitude(y)
  }

  lemma SortableBitsAreTotalOrder(x: u64, y: u64)
    ensures SortableBits(x) < SortableBits(y) <==> TotalOrderLess(x, y)
    ensures SortableBits(x) == SortableBits(y) <==> x == y
  {}

  // ---------------------------------------------------------------------
  // Values
  // ---------------------------------------------------------------------

  datatype ValueType =
    BoolType | LongType | DoubleType | InstantType | UuidType | KeywordType | StrType | BytesType | RefType

  /** Position in declaration order, which `Ord` compares by and the encoding writes as the tag. */
  function TypeTag(t: ValueType): (tag: byte)
    ensures tag < 9
  {
    match t
    case BoolType => 0
    case LongType => 1
    case DoubleType => 2
    case InstantType => 3
    case UuidType => 4
    case KeywordType => 5
    case StrType => 6
    case BytesType => 7
    case RefType => 8
  }

  datatype Value =
    | Bool(flag: bool)
    | Long(n: i64)
    | Double(bits: u64)
    | Instant(ms: i64)
    | Uuid(uuid: u128)
    | Keyword(kw: u64)
    | Str(text: Text)
    | Bytes(data: seq<byte>)
    | Ref(entity: EntityId)
    | Sealed(protection: EntityId, epoch: u32, vtype: ValueType, body: seq<byte>)

  function Rank(v: Value): nat {
    match v
    case Bool(_) => 0
    case Long(_) => 1
    case Double(_) => 2
    case Instant(_) => 3
    case Uuid(_) => 4
    case Keyword(_) => 5
    case Str(_) => 6
    case Bytes(_) => 7
    case Ref(_) => 8
    case Sealed(_, _, _, _) => 9
  }

  /** The derived `Ord` on `Value`: by variant, then field by field. */
  predicate ValueLess(v: Value, w: Value) {
    match (v, w)
    case (Bool(x), Bool(y)) => !x && y
    case (Long(x), Long(y)) => x < y
    case (Double(x), Double(y)) => SortableBits(x) < SortableBits(y)
    case (Instant(x), Instant(y)) => x < y
    case (Uuid(x), Uuid(y)) => x < y
    case (Keyword(x), Keyword(y)) => x < y
    case (Str(x), Str(y)) => Less(x, y)
    case (Bytes(x), Bytes(y)) => Less(x, y)
    case (Ref(x), Ref(y)) => x < y
    case (Sealed(c, e, t, x), Sealed(d, f, u, y)) =>
      c < d || (c == d && (e < f || (e == f && (TypeTag(t) < TypeTag(u) || (t == u && Less(x, y))))))
    case _ => Rank(v) < Rank(w)
  }

  predicate ValueAtMost(v: Value, w: Value) { v == w || ValueLess(v, w) }

  lemma ValueLessIsTotal(v: Value, w: Value)
    ensures v == w || ValueLess(v, w) || ValueLess(w, v)
    ensures !(v == w && ValueLess(v, w)) && !(ValueLess(v, w) && ValueLess(w, v))
  {
    match (v, w)
    case (Str(x), Str(y)) => LessIsTotal(x, y);
    case (Bytes(x), Bytes(y)) => LessIsTotal(x, y);
    case (Sealed(_, _, _, x), Sealed(_, _, _, y)) => LessIsTotal(x, y);
    case _ =>
  }

  /** `Value::has_type`: a sealed value answers for the type its header declares. */
  predicate HasType(v: Value, t: ValueType) {
    match v
    case Sealed(_, _, vtype, _) => vtype == t
    case _ => Rank(v) == TypeTag(t)
  }
}
