/** The `GHDFType` enum: 13 scalar kinds with value-type codes 1..13 and an
    array twin of each whose tag byte also carries `ARRAY_BIT` (bit 7). */
module TypeTags {
  import opened Wrappers
  import opened Bytes

  datatype GHDFType =
    | UInt8 | Int8 | UInt16 | Int16 | UInt32 | Int32 | UInt64 | Int64
    | Float | Double | Boolean | String | Compound
    | UInt8Array | Int8Array | UInt16Array | Int16Array | UInt32Array | Int32Array
    | UInt64Array | Int64Array | FloatArray | DoubleArray | BooleanArray
    | StringArray | CompoundArray

  /** `GHDFTypeException`: a byte that names no constant. */
  datatype TypeError = InvalidTypeByte(value: byte)

  const ARRAY_BIT: byte := 0x80

  /** The `valueType` argument each constant is declared with. */
  function ValueType(t: GHDFType): byte {
    match t
    case UInt8 | UInt8Array => 1
    case Int8 | Int8Array => 2
    case UInt16 | UInt16Array => 3
    case Int16 | Int16Array => 4
    case UInt32 | UInt32Array => 5
    case Int32 | Int32Array => 6
    case UInt64 | UInt64Array => 7
    case Int64 | Int64Array => 8
    case Float | FloatArray => 9
    case Double | DoubleArray => 10
    case Boolean | BooleanArray => 11
    case String | StringArray => 12
    case Compound | CompoundArray => 13
  }

  /** The `isArray` argument each constant is declared with. */
  predicate DeclaredAsArray(t: GHDFType) {
    match t
    case UInt8 | Int8 | UInt16 | Int16 | UInt32 | Int32 | UInt64 | Int64
       | Float | Double | Boolean | String | Compound => false
    case _ => true
  }

  /** The constant's `_byteData`, `valueType | (isArray ? ARRAY_BIT : 0)`.
      Every value type is below 0x80, so the OR adds the bit. */
  function GetByteData(t: GHDFType): (b: byte)
    ensures 1 <= b % 0x80 <= 13
    ensures b >= 0x80 <==> DeclaredAsArray(t)
  {
    ValueType(t) + if DeclaredAsArray(t) then ARRAY_BIT else 0
  }

  /** `ByteToEnum`: an array constant when bit 7 is set, found by the low seven
      bits; a scalar constant otherwise; an error for every other byte. */
  function ByteToEnum(value: byte): (r: Result<GHDFType, TypeError>)
    ensures r.Ok? <==> 1 <= value % 0x80 <= 13
    ensures r.Ok? ==> GetByteData(r.value) == value
    ensures r.Err? ==> r.error == InvalidTypeByte(value)
  {
    var found := if value >= ARRAY_BIT then ArraySwitch(value - ARRAY_BIT) else ScalarSwitch(value);
    match found
    case Some(t) => Ok(t)
    case None => Err(InvalidTypeByte(value))
  }

  /** The switch over the low seven bits of a byte with the array bit set. */
  function ArraySwitch(code: int): (r: Option<GHDFType>)
    ensures r.Some? <==> 1 <= code <= 13
    ensures r.Some? ==> DeclaredAsArray(r.value) && ValueType(r.value) == code
  {
    match code
    case 1 => Some(UInt8Array)
    case 2 => Some(Int8Array)
    case 3 => Some(UInt16Array)
    case 4 => Some(Int16Array)
    case 5 => Some(UInt32Array)
    case 6 => Some(Int32Array)
    case 7 => Some(UInt64Array)
    case 8 => Some(Int64Array)
    case 9 => Some(FloatArray)
    case 10 => Some(DoubleArray)
    case 11 => Some(BooleanArray)
    case 12 => Some(StringArray)
    case 13 => Some(CompoundArray)
    case _ => None
  }

  /** The switch over a byte without the array bit. */
  function ScalarSwitch(code: int): (r: Option<GHDFType>)
    ensures r.Some? <==> 1 <= code <= 13
    ensures r.Some? ==> !DeclaredAsArray(r.value) && ValueType(r.value) == code
  {
    match code
    case 1 => Some(UInt8)
    case 2 => Some(Int8)
    case 3 => Some(UInt16)
    case 4 => Some(Int16)
    case 5 => Some(UInt32)
    case 6 => Some(Int32)
    case 7 => Some(UInt64)
    case 8 => Some(Int64)
    case 9 => Some(Float)
    case 10 => Some(Double)
    case 11 => Some(Boolean)
    case 12 => Some(String)
    case 13 => Some(Compound)
    case _ => None
  }

  /** `GetOnlyType`: the tag byte with the array bit cleared. */
  function GetOnlyType(t: GHDFType): (code: byte)
    ensures code == ValueType(t) && 1 <= code <= 13
  {
    GetByteData(t) % ARRAY_BIT
  }

  /** `IsArray`: whether the tag byte has the array bit set. */
  predicate IsArray(t: GHDFType)
    ensures IsArray(t) <==> DeclaredAsArray(t)
  {
    GetByteData(t) >= ARRAY_BIT
  }

  /** The unsigned integer constants and their arrays. */
  predicate IsUnsigned(t: GHDFType) {
    t.UInt8? || t.UInt16? || t.UInt32? || t.UInt64?
    || t.UInt8Array? || t.UInt16Array? || t.UInt32Array? || t.UInt64Array?
  }

  /** The signed constant of the same width, array-ness and payload layout:
      the kind the reader's re-inference stores for a value read under t. */
  function SignedTwin(t: GHDFType): GHDFType {
    match t
    case UInt8 => Int8
    case UInt16 => Int16
    case UInt32 => Int32
    case UInt64 => Int64
    case UInt8Array => Int8Array
    case UInt16Array => Int16Array
    case UInt32Array => Int32Array
    case UInt64Array => Int64Array
    case _ => t
  }

  /** The signed twin is signed, keeps array-ness, has the next value-type
      code for an unsigned kind, and is the kind itself otherwise. */
  lemma SignedTwinKind(t: GHDFType)
    ensures !IsUnsigned(SignedTwin(t))
    ensures IsArray(SignedTwin(t)) == IsArray(t)
    ensures GetOnlyType(SignedTwin(t)) == GetOnlyType(t) + if IsUnsigned(t) then 1 else 0
    ensures !IsUnsigned(t) ==> SignedTwin(t) == t
  {
  }

  /** Decoding a constant's own byte gives the constant back. */
  lemma ByteToEnumRoundTrip(t: GHDFType)
    ensures ByteToEnum(GetByteData(t)) == Ok(t)
  {
  }

  /** No two constants share a tag byte: in particular each unsigned integer
      kind and its signed twin have different tags (UInt8 = 1, Int8 = 2). */
  lemma GetByteDataInjective(t: GHDFType, u: GHDFType)
    requires GetByteData(t) == GetByteData(u)
    ensures t == u
  {
    ByteToEnumRoundTrip(t);
    ByteToEnumRoundTrip(u);
  }

  /** What ByteToEnum returns is determined by the byte's two parts. */
  lemma ByteToEnumParts(value: byte)
    requires ByteToEnum(value).Ok?
    ensures IsArray(ByteToEnum(value).value) <==> value >= ARRAY_BIT
    ensures GetOnlyType(ByteToEnum(value).value) == value % ARRAY_BIT
  {
  }
}
