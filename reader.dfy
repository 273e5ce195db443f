/** `GHDFReaderVersion1`: a cursor over one little-endian `ByteBuffer`. The
    `Parse*` functions state what each Java `Read*` method consumes and returns,
    starting at a position of the buffer; the methods below them advance a
    `ByteBuffer` object step by step and are proved to agree with them. */
module ReaderV1 {
  import opened Wrappers
  import opened Bytes
  import opened TypeTags
  import opened Compounds
  import GhdfConstants

  /** `GHDFReadException`, by cause. `Incomplete` is the `BufferUnderflowException`
      of any read past the end: no catch inside the reader matches it, and
      `Read` turns it into the "incomplete" error at the top. */
  datatype ReadError =
    | Incomplete
    | InvalidSignature
    | UnsupportedVersion(found: int32)
    | IllegalIdZero
    | InvalidEntryType(id: int32, tag: byte)
    | InvalidBoolean(value: int8)
    | StringTooLong
    | ArrayTooLong
    | TrailingData
    | EntryFailed(id: int32, inner: ReadError)

  /** A value read, and the position after it. */
  datatype Parsed<+T> = Parsed(value: T, next: nat)

  /** The result a method returns for a parse: the value or the error. */
  function Drop<T>(p: Result<Parsed<T>, ReadError>): Result<T, ReadError> {
    if p.Ok? then Ok(p.value.value) else Err(p.error)
  }

  /** The catch of `ReadEntry` around the value read: a `GHDFReadException` is
      rethrown with the entry's id, an underflow passes through as it is. */
  function WrapEntry(id: int32, e: ReadError): (w: ReadError)
    ensures w == Incomplete <==> e == Incomplete
    ensures e != Incomplete ==> w.EntryFailed? && w.id == id && w.inner == e
  {
    if e == Incomplete then Incomplete else EntryFailed(id, e)
  }

  // ------------------------------------------------- ByteBuffer primitives

  /** `get()`. */
  function GetByte(data: seq<byte>, pos: nat): (r: Result<Parsed<byte>, ReadError>)
    requires pos <= |data|
    ensures r.Ok? <==> pos < |data|
    ensures r.Ok? ==> r.value == Parsed(data[pos], pos + 1)
    ensures r.Err? ==> r.error == Incomplete
  {
    if pos < |data| then Ok(Parsed(data[pos], pos + 1)) else Err(Incomplete)
  }

  /** `get(byte[n])`: all n bytes, or an underflow. */
  function GetBytes(data: seq<byte>, pos: nat, n: nat): (r: Result<Parsed<seq<byte>>, ReadError>)
    requires pos <= |data|
    ensures r.Ok? <==> pos + n <= |data|
    ensures r.Ok? ==> r.value == Parsed(data[pos..pos + n], pos + n)
    ensures r.Err? ==> r.error == Incomplete
  {
    if pos + n <= |data| then Ok(Parsed(data[pos..pos + n], pos + n)) else Err(Incomplete)
  }

  /** x is a value of a `width`-byte Java type: signed integers, or the raw bit
      pattern of a float or double. */
  predicate Fits(x: int, width: nat, signed: bool) {
    if signed then -(Pow256(width) / 2) <= x < Pow256(width) / 2 else 0 <= x < Pow256(width)
  }

  /** `getShort()`, `getInt()`, `getLong()` (signed), `getFloat()`,
      `getDouble()` (bit pattern): `width` little-endian bytes. */
  function GetScalar(data: seq<byte>, pos: nat, width: nat, signed: bool): (r: Result<Parsed<int>, ReadError>)
    requires pos <= |data| && 1 <= width
    ensures r.Ok? <==> pos + width <= |data|
    ensures r.Ok? ==> r.value.next == pos + width && Fits(r.value.value, width, signed)
    ensures r.Err? ==> r.error == Incomplete
  {
    if pos + width > |data| then Err(Incomplete)
    else
      var u := FromLittleEndian(data[pos..pos + width]);
      Ok(Parsed(if signed then ToSigned(u, width) else u, pos + width))
  }

  // ------------------------------------------------------------- varint

  /** The shift of group `index`: Java masks an `int` shift distance to its
      low five bits. */
  function GroupShift(index: nat): (s: nat)
    ensures s < 32
  {
    (7 * index) % 32
  }

  /** Where the do-while of `Read7BitEncodedInt` started at `pos` stops: just
      after the first byte without bit 7, or in underflow when no byte from
      pos on lacks it. */
  function VarintEnd(data: seq<byte>, pos: nat): (r: Result<nat, ReadError>)
    requires pos <= |data|
    ensures r.Ok? ==> pos < r.value <= |data| && data[r.value - 1] < 0x80
    ensures r.Ok? ==> forall k | pos <= k < r.value - 1 :: data[k] >= 0x80
    ensures r.Err? <==> forall k | pos <= k < |data| :: data[k] >= 0x80
    ensures r.Err? ==> r.error == Incomplete
    decreases |data| - pos
  {
    if pos == |data| then Err(Incomplete)
    else if data[pos] >= 0x80 then VarintEnd(data, pos + 1)
    else Ok(pos + 1)
  }

  /** The 32-bit pattern of `Result` once the do-while has consumed the
      groups gs, in order: each one in turn ORed in at its place. */
  function Combine(gs: seq<byte>): uint32
    decreases |gs|, 1
  {
    if gs == [] then 0 else CombineLast(gs)
  }

  /** The last of the groups gs ORed in over the ones before it. Kept apart
      from Combine so that unfolding Combine once does not unfold the
      arithmetic of Accumulate. */
  function CombineLast(gs: seq<byte>): uint32
    requires gs != []
    decreases |gs|, 0
  {
    Accumulate(Combine(gs[..|gs| - 1]), gs[|gs| - 1], |gs| - 1)
  }

  /** `Result |= (CurrentByte & 0x7F) << (7 * ByteIndex)`. */
  function Accumulate(value: uint32, b: byte, index: nat): (acc: uint32)
  {
    var shifted := ShiftLeft(b % 0x80, GroupShift(index));
    BitOrBound(value, shifted, 32);
    Pow2Of32();
    BitOr(value, shifted, 32)
  }

  /** Where the do-while stands once it has read data[start..pos] into
      value: either more turns are to come and it will stop where a loop
      started at pos stops, or it has stopped, at pos. */
  ghost predicate VarintState(data: seq<byte>, start: nat, pos: nat, value: uint32, more: bool) {
    && start <= pos <= |data|
    && value == Combine(data[start..pos])
    && (more ==> VarintEnd(data, start) == VarintEnd(data, pos))
    && (!more ==> VarintEnd(data, start) == Ok(pos))
  }

  /** One turn of the do-while on the byte at pos: it ORs that group in and
      goes on exactly when bit 7 is set. */
  lemma VarintTurn(data: seq<byte>, start: nat, pos: nat, value: uint32)
    requires VarintState(data, start, pos, value, true) && pos < |data|
    ensures VarintState(data, start, pos + 1, Accumulate(value, data[pos], pos - start), data[pos] >= 0x80)
  {
    assert data[start..pos + 1][..pos - start] == data[start..pos];
  }

  /** The do-while that runs out of bytes fails with an underflow. */
  lemma VarintUnderflow(data: seq<byte>, start: nat, value: uint32)
    requires VarintState(data, start, |data|, value, true)
    ensures ParseVarint(data, start) == Err(Incomplete)
  {
  }

  /** The do-while that stops at pos has read the `int` with pattern value. */
  lemma VarintDone(data: seq<byte>, start: nat, pos: nat, value: uint32)
    requires VarintState(data, start, pos, value, false)
    ensures ParseVarint(data, start) == Ok(Parsed(AsInt(value), pos))
  {
  }

  /** The `int` whose 32-bit pattern is v. */
  function AsInt(v: uint32): int32 {
    Pow256Widths();
    ToSigned(v, 4)
  }

  /** `Read7BitEncodedInt`: the groups up to the first byte without bit 7,
      ORed into an `int`; an underflow when no byte ends them. */
  function ParseVarint(data: seq<byte>, pos: nat): (r: Result<Parsed<int32>, ReadError>)
    requires pos <= |data|
    ensures r.Ok? <==> VarintEnd(data, pos).Ok?
    ensures r.Ok? ==> r.value.next == VarintEnd(data, pos).value
    ensures r.Ok? ==> pos < r.value.next <= |data|
    ensures r.Err? ==> r.error == Incomplete
  {
    var next :- VarintEnd(data, pos);
    Ok(Parsed(AsInt(Combine(data[pos..next])), next))
  }

  // ------------------------------------------------------ scalar readers

  /** `ReadBoolean`: 0 is false, 1 is true, any other byte is an error. */
  function ParseBoolean(data: seq<byte>, pos: nat): (r: Result<Parsed<bool>, ReadError>)
    requires pos <= |data|
    ensures r.Ok? <==> pos < |data| && data[pos] in {0, 1}
    ensures r.Ok? ==> r.value == Parsed(data[pos] == 1, pos + 1)
    ensures pos < |data| && data[pos] !in {0, 1} ==> r == Err(InvalidBoolean(ToSigned(data[pos], 1)))
  {
    var b :- GetByte(data, pos);
    Pow256Widths();
    if b.value == 0 then Ok(Parsed(false, b.next))
    else if b.value == 1 then Ok(Parsed(true, b.next))
    else Err(InvalidBoolean(ToSigned(b.value, 1)))
  }

  /** `ReadString`: a varint byte length, refused when negative, then the bytes. */
  function ParseString(data: seq<byte>, pos: nat): (r: Result<Parsed<seq<byte>>, ReadError>)
    requires pos <= |data|
    ensures r.Ok? ==> pos < r.value.next <= |data|
    ensures (ParseVarint(data, pos).Ok? && ParseVarint(data, pos).value.value < 0) <==> r == Err(StringTooLong)
  {
    var length :- ParseVarint(data, pos);
    if length.value < 0 then Err(StringTooLong)
    else GetBytes(data, length.next, length.value)
  }

  /** `GetArrayLength`: a varint, refused when negative. */
  function ParseArrayLength(data: seq<byte>, pos: nat): (r: Result<Parsed<nat>, ReadError>)
    requires pos <= |data|
    ensures r.Ok? ==> pos < r.value.next <= |data| && r.value.value <= MAX_LENGTH
    ensures (ParseVarint(data, pos).Ok? && ParseVarint(data, pos).value.value < 0) <==> r == Err(ArrayTooLong)
  {
    var length :- ParseVarint(data, pos);
    if length.value < 0 then Err(ArrayTooLong) else Ok(Parsed(length.value, length.next))
  }

  // ------------------------------------------------------- array readers

  /** The loops of `ReadShortArray`, `ReadIntArray`, `ReadLongArray`,
      `ReadFloatArray` and `ReadDoubleArray` with acc already stored: n more
      `width`-byte elements, each appended in order. */
  function ParseWords(data: seq<byte>, pos: nat, n: nat, width: nat, signed: bool, acc: seq<int>): (r: Result<Parsed<seq<int>>, ReadError>)
    requires pos <= |data| && 1 <= width
    ensures r.Ok? ==> pos <= r.value.next <= |data| && |r.value.value| == |acc| + n
    ensures r.Err? ==> r.error == Incomplete
    decreases n
  {
    if n == 0 then Ok(Parsed(acc, pos))
    else
      var x :- GetScalar(data, pos, width, signed);
      ParseWords(data, x.next, n - 1, width, signed, acc + [x.value])
  }

  /** Every element read is a value of the element type. */
  lemma {:induction false} WordsFit(data: seq<byte>, pos: nat, n: nat, width: nat, signed: bool, acc: seq<int>)
    requires pos <= |data| && 1 <= width
    requires forall k | 0 <= k < |acc| :: Fits(acc[k], width, signed)
    ensures var r := ParseWords(data, pos, n, width, signed, acc);
      r.Ok? ==> forall k | 0 <= k < |r.value.value| :: Fits(r.value.value[k], width, signed)
    decreases n
  {
    if n > 0 {
      var x := GetScalar(data, pos, width, signed);
      if x.Ok? {
        WordsStep(data, pos, n, width, signed, acc, x);
        var acc' := acc + [x.value.value];
        assert forall k | 0 <= k < |acc'| :: Fits(acc'[k], width, signed) by {
          forall k | 0 <= k < |acc'|
            ensures Fits(acc'[k], width, signed)
          {
            if k < |acc| { assert acc'[k] == acc[k]; }
          }
        }
        WordsFit(data, x.value.next, n - 1, width, signed, acc');
      }
    }
  }

  /** The loop of `ReadBooleanArray` with acc already stored. */
  function ParseBooleans(data: seq<byte>, pos: nat, n: nat, acc: seq<bool>): (r: Result<Parsed<seq<bool>>, ReadError>)
    requires pos <= |data|
    ensures r.Ok? ==> pos <= r.value.next <= |data| && |r.value.value| == |acc| + n
    decreases n
  {
    if n == 0 then Ok(Parsed(acc, pos))
    else
      var z :- ParseBoolean(data, pos);
      ParseBooleans(data, z.next, n - 1, acc + [z.value])
  }

  /** The loop of `ReadStringArray` with acc already stored. */
  function ParseStrings(data: seq<byte>, pos: nat, n: nat, acc: seq<seq<byte>>): (r: Result<Parsed<seq<seq<byte>>>, ReadError>)
    requires pos <= |data|
    ensures r.Ok? ==> pos <= r.value.next <= |data| && |r.value.value| == |acc| + n
    decreases n, 1
  {
    if n == 0 then Ok(Parsed(acc, pos)) else StringsTurn(data, pos, n, acc)
  }

  /** One turn of that loop: a string, then the remaining n - 1. Kept apart
      from ParseStrings so that unfolding ParseStrings once does not unfold
      the string reader. */
  function StringsTurn(data: seq<byte>, pos: nat, n: nat, acc: seq<seq<byte>>): (r: Result<Parsed<seq<seq<byte>>>, ReadError>)
    requires pos <= |data| && n > 0
    decreases n, 0
  {
    var s :- ParseString(data, pos);
    ParseStrings(data, s.next, n - 1, acc + [s.value])
  }

  /** The signed Java bytes of a bulk `get`. */
  function AsJavaBytes(bs: seq<byte>): (a: seq<int8>)
    ensures |a| == |bs| && forall k | 0 <= k < |bs| :: ToUnsigned(a[k], 1) == bs[k]
  {
    Pow256Widths();
    seq(|bs|, k requires 0 <= k < |bs| => ToSigned(bs[k], 1))
  }

  // --------------------------------------------------- compounds, entries

  /** `ReadCompound`: an entry count, then that many entries stored with
      `SetEntry` into a new compound. A negative count reads no entry. */
  function ParseCompound(data: seq<byte>, pos: nat): (r: Result<Parsed<Doc>, ReadError>)
    requires pos <= |data|
    ensures r.Ok? ==> pos < r.value.next <= |data| && 0 !in r.value.value.entries
    decreases |data| - pos, 0
  {
    var count :- ParseVarint(data, pos);
    var entries :- ParseEntries(data, count.next, count.value, map[]);
    Ok(Parsed(Doc(entries.value), entries.next))
  }

  /** The `for (i = 0; i < n; i++)` loop of `ReadCompound` over a compound that
      holds acc: each entry read replaces any earlier one with its id. */
  function ParseEntries(data: seq<byte>, pos: nat, n: int, acc: map<int32, Value>): (r: Result<Parsed<map<int32, Value>>, ReadError>)
    requires pos <= |data| && 0 !in acc
    ensures r.Ok? ==> pos <= r.value.next <= |data| && 0 !in r.value.value
    ensures r.Ok? ==> acc.Keys <= r.value.value.Keys
    decreases |data| - pos, 2
  {
    if n <= 0 then Ok(Parsed(acc, pos)) else EntriesTurn(data, pos, n, acc)
  }

  /** One turn of that loop: an entry, then the remaining n - 1. */
  function EntriesTurn(data: seq<byte>, pos: nat, n: int, acc: map<int32, Value>): (r: Result<Parsed<map<int32, Value>>, ReadError>)
    requires pos <= |data| && 0 !in acc && n > 0
    decreases |data| - pos, 1
  {
    var entry :- ParseEntry(data, pos);
    ParseEntries(data, entry.next, n - 1, acc[entry.value.0 := entry.value.1])
  }

  /** `ReadEntry`: the id (refused when 0), the tag byte (refused with its id
      when `ByteToEnum` rejects it), then the value by the tag's reader, whose
      errors are reported with the id. */
  function ParseEntry(data: seq<byte>, pos: nat): (r: Result<Parsed<(int32, Value)>, ReadError>)
    requires pos <= |data|
    ensures r.Ok? ==> pos < r.value.next <= |data| && r.value.value.0 != 0
    decreases |data| - pos, 0
  {
    var id :- ParseVarint(data, pos);
    if id.value == 0 then Err(IllegalIdZero)
    else
      var tag :- GetByte(data, id.next);
      match ByteToEnum(tag.value)
      case Err(_) => Err(InvalidEntryType(id.value, tag.value))
      case Ok(t) =>
        match ParsePayload(data, tag.next, t)
        case Err(e) => Err(WrapEntry(id.value, e))
        case Ok(p) => Ok(Parsed((id.value, p.value), p.next))
  }

  /** The reader the dispatch table holds for t. Unsigned kinds share the
      signed kind's reader, and `SetEntry` re-infers the type from the value,
      so the kind stored is always the signed twin of t. */
  function ParsePayload(data: seq<byte>, pos: nat, t: GHDFType): (r: Result<Parsed<Value>, ReadError>)
    requires pos <= |data|
    ensures r.Ok? ==> pos < r.value.next <= |data|
    decreases |data| - pos, 3
  {
    if IsArray(t) then ParseArrayPayload(data, pos, t) else ParseScalarPayload(data, pos, t)
  }

  /** The table's readers of scalar kinds. */
  function ParseScalarPayload(data: seq<byte>, pos: nat, t: GHDFType): (r: Result<Parsed<Value>, ReadError>)
    requires pos <= |data| && !IsArray(t)
    ensures r.Ok? ==> pos < r.value.next <= |data|
    decreases |data| - pos, 2
  {
    match t
    case Int8 | UInt8 => ParseInt8(data, pos)
    case Int16 | UInt16 => ParseInt16(data, pos)
    case Int32 | UInt32 => ParseInt32(data, pos)
    case Int64 | UInt64 => ParseInt64(data, pos)
    case Float => ParseFloat(data, pos)
    case Double => ParseDouble(data, pos)
    case Boolean => ParseBooleanValue(data, pos)
    case String => ParseStringValue(data, pos)
    case Compound => ParseCompoundValue(data, pos)
  }

  /** The table's readers of array kinds. */
  function ParseArrayPayload(data: seq<byte>, pos: nat, t: GHDFType): (r: Result<Parsed<Value>, ReadError>)
    requires pos <= |data| && IsArray(t)
    ensures r.Ok? ==> pos < r.value.next <= |data|
    decreases |data| - pos, 2
  {
    match t
    case Int8Array | UInt8Array => ParseByteArray(data, pos)
    case Int16Array | UInt16Array => ParseShortArray(data, pos)
    case Int32Array | UInt32Array => ParseIntArray(data, pos)
    case Int64Array | UInt64Array => ParseLongArray(data, pos)
    case FloatArray => ParseFloatArray(data, pos)
    case DoubleArray => ParseDoubleArray(data, pos)
    case BooleanArray => ParseBooleanArray(data, pos)
    case StringArray => ParseStringArray(data, pos)
    case CompoundArray => ParseCompoundArray(data, pos)
  }

  /** `ReadCompound` as a value: the nested compound. */
  function ParseCompoundValue(data: seq<byte>, pos: nat): (r: Result<Parsed<Value>, ReadError>)
    requires pos <= |data|
    ensures r.Ok? ==> pos < r.value.next <= |data|
    ensures r.Ok? ==> InferType(r.value.value) == Compound
    decreases |data| - pos, 1
  {
    var d :- ParseCompound(data, pos);
    Ok(Parsed(CompoundVal(d.value), d.next))
  }

  /** `ReadCompoundArray`: a length, then that many compounds. */
  function ParseCompoundArray(data: seq<byte>, pos: nat): (r: Result<Parsed<Value>, ReadError>)
    requires pos <= |data|
    ensures r.Ok? ==> pos < r.value.next <= |data|
    ensures r.Ok? ==> InferType(r.value.value) == CompoundArray
    decreases |data| - pos, 1
  {
    var n :- ParseArrayLength(data, pos);
    var ds :- ParseDocs(data, n.next, n.value, []);
    Ok(Parsed(CompoundArrayVal(ds.value), ds.next))
  }

  /** The kind `SetEntry` infers for a value read under t is t's signed twin. */
  lemma ParsePayloadKind(data: seq<byte>, pos: nat, t: GHDFType)
    requires pos <= |data| && ParsePayload(data, pos, t).Ok?
    ensures InferType(ParsePayload(data, pos, t).value.value) == SignedTwin(t)
  {
    if IsArray(t) {
      ArrayPayloadKind(data, pos, t);
    } else {
      ScalarPayloadKind(data, pos, t);
    }
  }

  lemma ScalarPayloadKind(data: seq<byte>, pos: nat, t: GHDFType)
    requires pos <= |data| && !IsArray(t) && ParseScalarPayload(data, pos, t).Ok?
    ensures InferType(ParseScalarPayload(data, pos, t).value.value) == SignedTwin(t)
  {
  }

  lemma ArrayPayloadKind(data: seq<byte>, pos: nat, t: GHDFType)
    requires pos <= |data| && IsArray(t) && ParseArrayPayload(data, pos, t).Ok?
    ensures InferType(ParseArrayPayload(data, pos, t).value.value) == SignedTwin(t)
  {
  }

  /** `ReadByte`. */
  function ParseInt8(data: seq<byte>, pos: nat): (r: Result<Parsed<Value>, ReadError>)
    requires pos <= |data|
    ensures r.Ok? ==> r.value.next == pos + 1 <= |data|
    ensures r.Ok? ==> InferType(r.value.value) == Int8
  {
    Pow256Widths();
    var x :- GetScalar(data, pos, 1, true);
    Ok(Parsed(ByteVal(x.value), x.next))
  }

  /** `ReadShort`. */
  function ParseInt16(data: seq<byte>, pos: nat): (r: Result<Parsed<Value>, ReadError>)
    requires pos <= |data|
    ensures r.Ok? ==> r.value.next == pos + 2 <= |data|
    ensures r.Ok? ==> InferType(r.value.value) == Int16
  {
    Pow256Widths();
    var x :- GetScalar(data, pos, 2, true);
    Ok(Parsed(ShortVal(x.value), x.next))
  }

  /** `ReadInt`. */
  function ParseInt32(data: seq<byte>, pos: nat): (r: Result<Parsed<Value>, ReadError>)
    requires pos <= |data|
    ensures r.Ok? ==> r.value.next == pos + 4 <= |data|
    ensures r.Ok? ==> InferType(r.value.value) == Int32
  {
    Pow256Widths();
    var x :- GetScalar(data, pos, 4, true);
    Ok(Parsed(IntVal(x.value), x.next))
  }

  /** `ReadLong`. */
  function ParseInt64(data: seq<byte>, pos: nat): (r: Result<Parsed<Value>, ReadError>)
    requires pos <= |data|
    ensures r.Ok? ==> r.value.next == pos + 8 <= |data|
    ensures r.Ok? ==> InferType(r.value.value) == Int64
  {
    Pow256Widths();
    var x :- GetScalar(data, pos, 8, true);
    Ok(Parsed(LongVal(x.value), x.next))
  }

  /** `ReadFloat`: the raw 32-bit pattern. */
  function ParseFloat(data: seq<byte>, pos: nat): (r: Result<Parsed<Value>, ReadError>)
    requires pos <= |data|
    ensures r.Ok? ==> r.value.next == pos + 4 <= |data|
    ensures r.Ok? ==> InferType(r.value.value) == Float
  {
    Pow256Widths();
    var x :- GetScalar(data, pos, 4, false);
    Ok(Parsed(FloatVal(x.value), x.next))
  }

  /** `ReadDouble`: the raw 64-bit pattern. */
  function ParseDouble(data: seq<byte>, pos: nat): (r: Result<Parsed<Value>, ReadError>)
    requires pos <= |data|
    ensures r.Ok? ==> r.value.next == pos + 8 <= |data|
    ensures r.Ok? ==> InferType(r.value.value) == Double
  {
    Pow256Widths();
    var x :- GetScalar(data, pos, 8, false);
    Ok(Parsed(DoubleVal(x.value), x.next))
  }

  function ParseBooleanValue(data: seq<byte>, pos: nat): (r: Result<Parsed<Value>, ReadError>)
    requires pos <= |data|
    ensures r.Ok? ==> r.value.next == pos + 1 <= |data|
    ensures r.Ok? ==> InferType(r.value.value) == Boolean
  {
    var z :- ParseBoolean(data, pos);
    Ok(Parsed(BoolVal(z.value), z.next))
  }

  function ParseStringValue(data: seq<byte>, pos: nat): (r: Result<Parsed<Value>, ReadError>)
    requires pos <= |data|
    ensures r.Ok? ==> pos < r.value.next <= |data|
    ensures r.Ok? ==> InferType(r.value.value) == String
  {
    var s :- ParseString(data, pos);
    Ok(Parsed(StringVal(s.value), s.next))
  }

  /** `ReadByteArray`: a length, then one bulk `get`. */
  function ParseByteArray(data: seq<byte>, pos: nat): (r: Result<Parsed<Value>, ReadError>)
    requires pos <= |data|
    ensures r.Ok? ==> pos < r.value.next <= |data|
    ensures r.Ok? ==> InferType(r.value.value) == Int8Array
  {
    var n :- ParseArrayLength(data, pos);
    var bs :- GetBytes(data, n.next, n.value);
    Ok(Parsed(ByteArrayVal(AsJavaBytes(bs.value)), bs.next))
  }

  /** `ReadShortArray`. */
  function ParseShortArray(data: seq<byte>, pos: nat): (r: Result<Parsed<Value>, ReadError>)
    requires pos <= |data|
    ensures r.Ok? ==> pos < r.value.next <= |data|
    ensures r.Ok? ==> InferType(r.value.value) == Int16Array
  {
    Pow256Widths();
    var n :- ParseArrayLength(data, pos);
    var xs :- ParseWords(data, n.next, n.value, 2, true, []);
    WordsFit(data, n.next, n.value, 2, true, []);
    Ok(Parsed(ShortArrayVal(xs.value), xs.next))
  }

  /** `ReadIntArray`. */
  function ParseIntArray(data: seq<byte>, pos: nat): (r: Result<Parsed<Value>, ReadError>)
    requires pos <= |data|
    ensures r.Ok? ==> pos < r.value.next <= |data|
    ensures r.Ok? ==> InferType(r.value.value) == Int32Array
  {
    Pow256Widths();
    var n :- ParseArrayLength(data, pos);
    var xs :- ParseWords(data, n.next, n.value, 4, true, []);
    WordsFit(data, n.next, n.value, 4, true, []);
    Ok(Parsed(IntArrayVal(xs.value), xs.next))
  }

  /** `ReadLongArray`. */
  function ParseLongArray(data: seq<byte>, pos: nat): (r: Result<Parsed<Value>, ReadError>)
    requires pos <= |data|
    ensures r.Ok? ==> pos < r.value.next <= |data|
    ensures r.Ok? ==> InferType(r.value.value) == Int64Array
  {
    Pow256Widths();
    var n :- ParseArrayLength(data, pos);
    var xs :- ParseWords(data, n.next, n.value, 8, true, []);
    WordsFit(data, n.next, n.value, 8, true, []);
    Ok(Parsed(LongArrayVal(xs.value), xs.next))
  }

  /** `ReadFloatArray`. */
  function ParseFloatArray(data: seq<byte>, pos: nat): (r: Result<Parsed<Value>, ReadError>)
    requires pos <= |data|
    ensures r.Ok? ==> pos < r.value.next <= |data|
    ensures r.Ok? ==> InferType(r.value.value) == FloatArray
  {
    Pow256Widths();
    var n :- ParseArrayLength(data, pos);
    var xs :- ParseWords(data, n.next, n.value, 4, false, []);
    WordsFit(data, n.next, n.value, 4, false, []);
    Ok(Parsed(FloatArrayVal(xs.value), xs.next))
  }

  /** `ReadDoubleArray`. */
  function ParseDoubleArray(data: seq<byte>, pos: nat): (r: Result<Parsed<Value>, ReadError>)
    requires pos <= |data|
    ensures r.Ok? ==> pos < r.value.next <= |data|
    ensures r.Ok? ==> InferType(r.value.value) == DoubleArray
  {
    Pow256Widths();
    var n :- ParseArrayLength(data, pos);
    var xs :- ParseWords(data, n.next, n.value, 8, false, []);
    WordsFit(data, n.next, n.value, 8, false, []);
    Ok(Parsed(DoubleArrayVal(xs.value), xs.next))
  }

  /** `ReadBooleanArray`. */
  function ParseBooleanArray(data: seq<byte>, pos: nat): (r: Result<Parsed<Value>, ReadError>)
    requires pos <= |data|
    ensures r.Ok? ==> pos < r.value.next <= |data|
    ensures r.Ok? ==> InferType(r.value.value) == BooleanArray
  {
    var n :- ParseArrayLength(data, pos);
    var zs :- ParseBooleans(data, n.next, n.value, []);
    Ok(Parsed(BoolArrayVal(zs.value), zs.next))
  }

  /** `ReadStringArray`. */
  function ParseStringArray(data: seq<byte>, pos: nat): (r: Result<Parsed<Value>, ReadError>)
    requires pos <= |data|
    ensures r.Ok? ==> pos < r.value.next <= |data|
    ensures r.Ok? ==> InferType(r.value.value) == StringArray
  {
    var n :- ParseArrayLength(data, pos);
    var ss :- ParseStrings(data, n.next, n.value, []);
    Ok(Parsed(StringArrayVal(ss.value), ss.next))
  }

  /** The loop of `ReadCompoundArray` with acc already stored. */
  function ParseDocs(data: seq<byte>, pos: nat, n: nat, acc: seq<Doc>): (r: Result<Parsed<seq<Doc>>, ReadError>)
    requires pos <= |data|
    ensures r.Ok? ==> pos <= r.value.next <= |data| && |r.value.value| == |acc| + n
    decreases |data| - pos, 1, n, 1
  {
    if n == 0 then Ok(Parsed(acc, pos)) else DocsTurn(data, pos, n, acc)
  }

  /** One turn of that loop: a compound, then the remaining n - 1. */
  function DocsTurn(data: seq<byte>, pos: nat, n: nat, acc: seq<Doc>): (r: Result<Parsed<seq<Doc>>, ReadError>)
    requires pos <= |data| && n > 0
    ensures r.Ok? ==> pos <= r.value.next <= |data| && |r.value.value| == |acc| + n
    decreases |data| - pos, 1, n, 0
  {
    var d :- ParseCompound(data, pos);
    ParseDocs(data, d.next, n - 1, acc + [d.value])
  }

  // ----------------------------------------------------------- document

  /** `VerifySignature`: 16 bytes that must be `GHDF.SIGNATURE`. */
  function ParseSignature(data: seq<byte>, pos: nat): (r: Result<Parsed<()>, ReadError>)
    requires pos <= |data|
    ensures r.Ok? <==> pos + 16 <= |data| && data[pos..pos + 16] == GhdfConstants.SIGNATURE
    ensures r.Ok? ==> r.value.next == pos + 16
    ensures pos + 16 > |data| ==> r == Err(Incomplete)
    ensures pos + 16 <= |data| && data[pos..pos + 16] != GhdfConstants.SIGNATURE ==> r == Err(InvalidSignature)
  {
    var read :- GetBytes(data, pos, |GhdfConstants.SIGNATURE|);
    if read.value != GhdfConstants.SIGNATURE then Err(InvalidSignature) else Ok(Parsed((), read.next))
  }

  /** `VerifyVersion`: a 4-byte little-endian `int` that must equal 1. */
  function ParseVersion(data: seq<byte>, pos: nat): (r: Result<Parsed<()>, ReadError>)
    requires pos <= |data|
    ensures r.Ok? <==> pos + 4 <= |data| && FromLittleEndian(data[pos..pos + 4]) == GhdfConstants.VERSION
    ensures r.Ok? ==> r.value.next == pos + 4
    ensures pos + 4 > |data| ==> r == Err(Incomplete)
    ensures pos + 4 <= |data| && FromLittleEndian(data[pos..pos + 4]) != GhdfConstants.VERSION ==>
              r == Err(UnsupportedVersion(ToSigned(FromLittleEndian(data[pos..pos + 4]), 4)))
  {
    Pow256Widths();
    var version :- GetScalar(data, pos, 4, true);
    if version.value != GhdfConstants.VERSION then Err(UnsupportedVersion(version.value))
    else Ok(Parsed((), version.next))
  }

  /** `Read(InputStream)` over all of the stream's bytes: signature, version,
      the root compound, and nothing after it. */
  function ParseDocument(data: seq<byte>): (r: Result<Doc, ReadError>)
    ensures r.Ok? ==> 0 !in r.value.entries
    ensures r.Ok? ==> 20 < |data| && ParseCompound(data, 20) == Ok(Parsed(r.value, |data|))
  {
    var signature :- ParseSignature(data, 0);
    var version :- ParseVersion(data, signature.next);
    var body :- ParseCompound(data, version.next);
    if body.next < |data| then Err(TrailingData) else Ok(body.value)
  }

  // ------------------------------------------------------- the cursor

  /** `ByteBuffer.wrap(stream.readAllBytes())`: the bytes and a position. */
  class ByteBuffer {
    const data: seq<byte>
    var position: nat

    ghost predicate Valid()
      reads this
    {
      position <= |data|
    }

    constructor Wrap(bytes: seq<byte>)
      ensures Valid() && data == bytes && position == 0
    {
      data := bytes;
      position := 0;
    }

    /** `remaining()`. */
    function Remaining(): (n: nat)
      reads this
      requires Valid()
      ensures position + n == |data|
    {
      |data| - position
    }

    /** `get()`: an underflow leaves the position where it was. */
    method Get() returns (r: Result<byte, ReadError>)
      requires Valid()
      modifies this
      ensures Valid() && Advanced(this, GetByte(data, old(position)), r)
      ensures r.Err? ==> position == old(position)
    {
      if position < |data| {
        r := Ok(data[position]);
        position := position + 1;
      } else {
        r := Err(Incomplete);
      }
    }

    /** `get(byte[n])`. */
    method GetArray(n: nat) returns (r: Result<seq<byte>, ReadError>)
      requires Valid()
      modifies this
      ensures Valid() && Advanced(this, GetBytes(data, old(position), n), r)
      ensures r.Err? ==> position == old(position)
    {
      if position + n <= |data| {
        r := Ok(data[position..position + n]);
        position := position + n;
      } else {
        r := Err(Incomplete);
      }
    }

    /** `getShort()`, `getInt()`, `getLong()`, `getFloat()`, `getDouble()`. */
    method GetWord(width: nat, signed: bool) returns (r: Result<int, ReadError>)
      requires Valid() && 1 <= width
      modifies this
      ensures Valid() && Advanced(this, GetScalar(data, old(position), width, signed), r)
      ensures r.Err? ==> position == old(position)
    {
      if position + width > |data| {
        r := Err(Incomplete);
      } else {
        var u := FromLittleEndian(data[position..position + width]);
        r := Ok(if signed then ToSigned(u, width) else u);
        position := position + width;
      }
    }
  }

  /** A method returned what the parse p reads, and left the buffer after it. */
  ghost predicate Advanced<T>(buffer: ByteBuffer, p: Result<Parsed<T>, ReadError>, r: Result<T, ReadError>)
    reads buffer
  {
    r == Drop(p) && (p.Ok? ==> buffer.position == p.value.next)
  }

  /** One turn of each array loop: the element parse p at pos either fails
      the whole loop with its error or hands the rest of the loop the
      position after it, with the element appended. */
  lemma WordsStep(data: seq<byte>, pos: nat, n: nat, width: nat, signed: bool, acc: seq<int>, p: Result<Parsed<int>, ReadError>)
    requires pos <= |data| && 1 <= width && n > 0 && p == GetScalar(data, pos, width, signed)
    ensures ParseWords(data, pos, n, width, signed, acc)
         == if p.Ok? then ParseWords(data, p.value.next, n - 1, width, signed, acc + [p.value.value]) else Err(p.error)
  {
  }

  lemma BooleansStep(data: seq<byte>, pos: nat, n: nat, acc: seq<bool>, p: Result<Parsed<bool>, ReadError>)
    requires pos <= |data| && n > 0 && p == ParseBoolean(data, pos)
    ensures ParseBooleans(data, pos, n, acc)
         == if p.Ok? then ParseBooleans(data, p.value.next, n - 1, acc + [p.value.value]) else Err(p.error)
  {
  }

  lemma StringsStep(data: seq<byte>, pos: nat, n: nat, acc: seq<seq<byte>>, p: Result<Parsed<seq<byte>>, ReadError>)
    requires pos <= |data| && n > 0 && p == ParseString(data, pos)
    ensures ParseStrings(data, pos, n, acc)
         == if p.Ok? then ParseStrings(data, p.value.next, n - 1, acc + [p.value.value]) else Err(p.error)
  {
  }

  lemma DocsStep(data: seq<byte>, pos: nat, n: nat, acc: seq<Doc>, p: Result<Parsed<Doc>, ReadError>)
    requires pos <= |data| && n > 0 && p == ParseCompound(data, pos)
    ensures ParseDocs(data, pos, n, acc)
         == if p.Ok? then ParseDocs(data, p.value.next, n - 1, acc + [p.value.value]) else Err(p.error)
  {
  }

  lemma EntriesStep(data: seq<byte>, pos: nat, n: int, acc: map<int32, Value>, p: Result<Parsed<(int32, Value)>, ReadError>)
    requires pos <= |data| && 0 !in acc && n > 0 && p == ParseEntry(data, pos)
    ensures ParseEntries(data, pos, n, acc)
         == if p.Ok? then ParseEntries(data, p.value.next, n - 1, acc[p.value.value.0 := p.value.value.1]) else Err(p.error)
  {
  }

  /** How `ReadEntry` refuses an entry: id 0 before the tag is read, a tag
      `ByteToEnum` rejects with the id and the tag, and an error of the value's
      reader reported with the id. */
  lemma EntryRejected(data: seq<byte>, pos: nat)
    requires pos <= |data|
    ensures var r := ParseEntry(data, pos);
      var id := ParseVarint(data, pos);
      && (id.Ok? && id.value.value == 0 ==> r == Err(IllegalIdZero))
      && (id.Ok? && id.value.value != 0 && id.value.next < |data| && ByteToEnum(data[id.value.next]).Err? ==>
            r == Err(InvalidEntryType(id.value.value, data[id.value.next])))
      && (id.Ok? && id.value.value != 0 && id.value.next < |data| && ByteToEnum(data[id.value.next]).Ok? ==>
            var payload := ParsePayload(data, id.value.next + 1, ByteToEnum(data[id.value.next]).value);
            payload.Err? ==> r == Err(WrapEntry(id.value.value, payload.error)))
  {
  }

  /** Two entries in a row with the same id: the second replaces the first,
      whose value is lost. */
  lemma LaterEntryWins(data: seq<byte>, pos: nat, n: int, acc: map<int32, Value>, id: int32, first: Value, second: Value, mid: nat, next: nat)
    requires pos <= |data| && 0 !in acc && n >= 2
    requires ParseEntry(data, pos) == Ok(Parsed((id, first), mid))
    requires ParseEntry(data, mid) == Ok(Parsed((id, second), next))
    ensures ParseEntries(data, pos, n, acc) == ParseEntries(data, next, n - 2, acc[id := second])
  {
    EntriesStep(data, pos, n, acc, ParseEntry(data, pos));
    EntriesStep(data, mid, n - 1, acc[id := first], ParseEntry(data, mid));
    assert acc[id := first][id := second] == acc[id := second];
  }

  /** The loop of `ReadCompound` adds at most one id per entry it reads, and
      none when the count is not positive. */
  lemma {:induction false} EntriesAtMost(data: seq<byte>, pos: nat, n: int, acc: map<int32, Value>)
    requires pos <= |data| && 0 !in acc && ParseEntries(data, pos, n, acc).Ok?
    ensures |ParseEntries(data, pos, n, acc).value.value| <= |acc| + (if n > 0 then n else 0)
    decreases |data| - pos
  {
    if n > 0 {
      var entry := ParseEntry(data, pos);
      EntriesStep(data, pos, n, acc, entry);
      var acc' := acc[entry.value.value.0 := entry.value.value.1];
      assert |acc'| <= |acc| + 1;
      EntriesAtMost(data, entry.value.next, n - 1, acc');
    }
  }

  /** A byte other than 0 or 1 among the elements of a boolean array stops
      its loop with that byte's error, once the bytes before it are valid. */
  lemma {:induction false} BadBooleanRejected(data: seq<byte>, pos: nat, n: nat, acc: seq<bool>, k: nat)
    requires pos + k < |data| && k < n
    requires forall i | pos <= i < pos + k :: data[i] in {0, 1}
    requires data[pos + k] !in {0, 1}
    ensures ParseBooleans(data, pos, n, acc) == Err(InvalidBoolean(ToSigned(data[pos + k], 1)))
    decreases k
  {
    BooleansStep(data, pos, n, acc, ParseBoolean(data, pos));
    if k > 0 {
      BadBooleanRejected(data, pos + 1, n - 1, acc + [data[pos] == 1], k - 1);
    }
  }

  /** A method that returns no value passed or failed as the parse p did,
      and left the buffer after it. */
  ghost predicate Checked<T>(buffer: ByteBuffer, p: Result<Parsed<T>, ReadError>, r: Outcome<ReadError>)
    reads buffer
  {
    (r.Pass? <==> p.Ok?) && (r.Fail? ==> r.error == p.error) && (p.Ok? ==> buffer.position == p.value.next)
  }

  // ------------------------------------------------------- the methods

  /** `Read7BitEncodedInt`: the do-while over `CurrentByte` and `ByteIndex`. */
  method Read7BitEncodedInt(buffer: ByteBuffer) returns (r: Result<int32, ReadError>)
    requires buffer.Valid()
    modifies buffer
    ensures buffer.Valid() && Advanced(buffer, ParseVarint(buffer.data, old(buffer.position)), r)
  {
    var value: uint32 := 0;
    var index: nat := 0;
    ghost var start := buffer.position;
    var more := true;
    while more
      invariant buffer.Valid() && start <= buffer.position && index == buffer.position - start
      invariant VarintState(buffer.data, start, buffer.position, value, more)
      decreases |buffer.data| - buffer.position, if more then 1 else 0
    {
      ghost var before := buffer.position;
      var current := buffer.Get();
      if current.Err? {
        VarintUnderflow(buffer.data, start, value);
        return Err(current.error);
      }
      VarintTurn(buffer.data, start, before, value);
      value := Accumulate(value, current.value, index);
      index := index + 1;
      more := current.value >= 0x80;
    }
    VarintDone(buffer.data, start, buffer.position, value);
    r := Ok(AsInt(value));
  }

  /** `ReadByte`, boxed as the dispatch table returns it. */
  method ReadByte(buffer: ByteBuffer) returns (r: Result<Value, ReadError>)
    requires buffer.Valid()
    modifies buffer
    ensures buffer.Valid() && Advanced(buffer, ParseInt8(buffer.data, old(buffer.position)), r)
  {
    Pow256Widths();
    var x :- buffer.GetWord(1, true);
    r := Ok(ByteVal(x));
  }

  /** `ReadShort`, boxed as the dispatch table returns it. */
  method ReadShort(buffer: ByteBuffer) returns (r: Result<Value, ReadError>)
    requires buffer.Valid()
    modifies buffer
    ensures buffer.Valid() && Advanced(buffer, ParseInt16(buffer.data, old(buffer.position)), r)
  {
    Pow256Widths();
    var x :- buffer.GetWord(2, true);
    r := Ok(ShortVal(x));
  }

  /** `ReadInt`, boxed as the dispatch table returns it. */
  method ReadInt(buffer: ByteBuffer) returns (r: Result<Value, ReadError>)
    requires buffer.Valid()
    modifies buffer
    ensures buffer.Valid() && Advanced(buffer, ParseInt32(buffer.data, old(buffer.position)), r)
  {
    Pow256Widths();
    var x :- buffer.GetWord(4, true);
    r := Ok(IntVal(x));
  }

  /** `ReadLong`, boxed as the dispatch table returns it. */
  method ReadLong(buffer: ByteBuffer) returns (r: Result<Value, ReadError>)
    requires buffer.Valid()
    modifies buffer
    ensures buffer.Valid() && Advanced(buffer, ParseInt64(buffer.data, old(buffer.position)), r)
  {
    Pow256Widths();
    var x :- buffer.GetWord(8, true);
    r := Ok(LongVal(x));
  }

  /** `ReadFloat`, boxed as the dispatch table returns it. */
  method ReadFloat(buffer: ByteBuffer) returns (r: Result<Value, ReadError>)
    requires buffer.Valid()
    modifies buffer
    ensures buffer.Valid() && Advanced(buffer, ParseFloat(buffer.data, old(buffer.position)), r)
  {
    Pow256Widths();
    var x :- buffer.GetWord(4, false);
    r := Ok(FloatVal(x));
  }

  /** `ReadDouble`, boxed as the dispatch table returns it. */
  method ReadDouble(buffer: ByteBuffer) returns (r: Result<Value, ReadError>)
    requires buffer.Valid()
    modifies buffer
    ensures buffer.Valid() && Advanced(buffer, ParseDouble(buffer.data, old(buffer.position)), r)
  {
    Pow256Widths();
    var x :- buffer.GetWord(8, false);
    r := Ok(DoubleVal(x));
  }

  /** `ReadBoolean`. */
  method ReadBoolean(buffer: ByteBuffer) returns (r: Result<bool, ReadError>)
    requires buffer.Valid()
    modifies buffer
    ensures buffer.Valid() && Advanced(buffer, ParseBoolean(buffer.data, old(buffer.position)), r)
  {
    var b :- buffer.Get();
    Pow256Widths();
    if b == 0 {
      r := Ok(false);
    } else if b == 1 {
      r := Ok(true);
    } else {
      r := Err(InvalidBoolean(ToSigned(b, 1)));
    }
  }

  /** `ReadString`. */
  method ReadString(buffer: ByteBuffer) returns (r: Result<seq<byte>, ReadError>)
    requires buffer.Valid()
    modifies buffer
    ensures buffer.Valid() && Advanced(buffer, ParseString(buffer.data, old(buffer.position)), r)
  {
    var length :- Read7BitEncodedInt(buffer);
    if length < 0 {
      return Err(StringTooLong);
    }
    r := buffer.GetArray(length);
  }

  /** `GetArrayLength`. */
  method GetArrayLength(buffer: ByteBuffer) returns (r: Result<nat, ReadError>)
    requires buffer.Valid()
    modifies buffer
    ensures buffer.Valid() && Advanced(buffer, ParseArrayLength(buffer.data, old(buffer.position)), r)
  {
    var length :- Read7BitEncodedInt(buffer);
    if length < 0 {
      return Err(ArrayTooLong);
    }
    r := Ok(length);
  }

  /** `ReadByteArray`: one bulk `get` into a fresh `byte[Length]`. */
  method ReadByteArray(buffer: ByteBuffer) returns (r: Result<seq<int8>, ReadError>)
    requires buffer.Valid()
    modifies buffer
    ensures buffer.Valid()
    ensures var p := ParseByteArray(buffer.data, old(buffer.position));
      && (r.Ok? <==> p.Ok?) && (r.Err? ==> r.error == p.error)
      && (r.Ok? ==> p.value == Parsed(ByteArrayVal(r.value), buffer.position))
  {
    var length :- GetArrayLength(buffer);
    var bytes :- buffer.GetArray(length);
    r := Ok(AsJavaBytes(bytes));
  }

  /** `ReadShortArray`, `ReadIntArray`, `ReadLongArray`, `ReadFloatArray`,
      `ReadDoubleArray`: the length, then the elements. */
  method ReadWordArray(buffer: ByteBuffer, width: nat, signed: bool) returns (r: Result<seq<int>, ReadError>)
    requires buffer.Valid() && 1 <= width
    modifies buffer
    ensures buffer.Valid()
    ensures var p := ParseArrayLength(buffer.data, old(buffer.position));
      Advanced(buffer, if p.Ok? then ParseWords(buffer.data, p.value.next, p.value.value, width, signed, []) else Err(p.error), r)
    ensures r.Ok? ==> forall k | 0 <= k < |r.value| :: Fits(r.value[k], width, signed)
  {
    var length :- GetArrayLength(buffer);
    r := ReadWords(buffer, length, width, signed);
  }

  /** `ReadShortArray`, boxed as the dispatch table returns it. */
  method ReadShortArray(buffer: ByteBuffer) returns (r: Result<Value, ReadError>)
    requires buffer.Valid()
    modifies buffer
    ensures buffer.Valid() && Advanced(buffer, ParseShortArray(buffer.data, old(buffer.position)), r)
  {
    Pow256Widths();
    var a :- ReadWordArray(buffer, 2, true);
    r := Ok(ShortArrayVal(a));
  }

  /** `ReadIntArray`, boxed as the dispatch table returns it. */
  method ReadIntArray(buffer: ByteBuffer) returns (r: Result<Value, ReadError>)
    requires buffer.Valid()
    modifies buffer
    ensures buffer.Valid() && Advanced(buffer, ParseIntArray(buffer.data, old(buffer.position)), r)
  {
    Pow256Widths();
    var a :- ReadWordArray(buffer, 4, true);
    r := Ok(IntArrayVal(a));
  }

  /** `ReadLongArray`, boxed as the dispatch table returns it. */
  method ReadLongArray(buffer: ByteBuffer) returns (r: Result<Value, ReadError>)
    requires buffer.Valid()
    modifies buffer
    ensures buffer.Valid() && Advanced(buffer, ParseLongArray(buffer.data, old(buffer.position)), r)
  {
    Pow256Widths();
    var a :- ReadWordArray(buffer, 8, true);
    r := Ok(LongArrayVal(a));
  }

  /** `ReadFloatArray`, boxed as the dispatch table returns it. */
  method ReadFloatArray(buffer: ByteBuffer) returns (r: Result<Value, ReadError>)
    requires buffer.Valid()
    modifies buffer
    ensures buffer.Valid() && Advanced(buffer, ParseFloatArray(buffer.data, old(buffer.position)), r)
  {
    Pow256Widths();
    var a :- ReadWordArray(buffer, 4, false);
    r := Ok(FloatArrayVal(a));
  }

  /** `ReadDoubleArray`, boxed as the dispatch table returns it. */
  method ReadDoubleArray(buffer: ByteBuffer) returns (r: Result<Value, ReadError>)
    requires buffer.Valid()
    modifies buffer
    ensures buffer.Valid() && Advanced(buffer, ParseDoubleArray(buffer.data, old(buffer.position)), r)
  {
    Pow256Widths();
    var a :- ReadWordArray(buffer, 8, false);
    r := Ok(DoubleArrayVal(a));
  }

  /** The loop of the fixed-width array readers: a fresh array of `length`
      elements filled by one `get*` each. */
  method ReadWords(buffer: ByteBuffer, length: nat, width: nat, signed: bool) returns (r: Result<seq<int>, ReadError>)
    requires buffer.Valid() && 1 <= width
    modifies buffer
    ensures buffer.Valid() && Advanced(buffer, ParseWords(buffer.data, old(buffer.position), length, width, signed, []), r)
    ensures r.Ok? ==> forall k | 0 <= k < |r.value| :: Fits(r.value[k], width, signed)
  {
    ghost var data, whole := buffer.data, ParseWords(buffer.data, buffer.position, length, width, signed, []);
    WordsFit(data, buffer.position, length, width, signed, []);
    var values := new int[length];
    ghost var got: seq<int> := [];
    for i := 0 to length
      invariant buffer.Valid() && |got| == i
      invariant forall k | 0 <= k < i :: values[k] == got[k]
      invariant ParseWords(data, buffer.position, length - i, width, signed, got) == whole
    {
      ghost var p := GetScalar(data, buffer.position, width, signed);
      WordsStep(data, buffer.position, length - i, width, signed, got, p);
      var x := buffer.GetWord(width, signed);
      if x.Err? {
        return Err(x.error);
      }
      values[i] := x.value;
      got := got + [x.value];
    }
    assert values[..] == got;
    r := Ok(values[..]);
  }

  /** `ReadBooleanArray`. */
  method ReadBooleanArray(buffer: ByteBuffer) returns (r: Result<seq<bool>, ReadError>)
    requires buffer.Valid()
    modifies buffer
    ensures buffer.Valid()
    ensures var p := ParseArrayLength(buffer.data, old(buffer.position));
      Advanced(buffer, if p.Ok? then ParseBooleans(buffer.data, p.value.next, p.value.value, []) else Err(p.error), r)
  {
    var length :- GetArrayLength(buffer);
    r := ReadBooleans(buffer, length);
  }

  /** The loop of `ReadBooleanArray`. */
  method ReadBooleans(buffer: ByteBuffer, length: nat) returns (r: Result<seq<bool>, ReadError>)
    requires buffer.Valid()
    modifies buffer
    ensures buffer.Valid() && Advanced(buffer, ParseBooleans(buffer.data, old(buffer.position), length, []), r)
  {
    ghost var data, whole := buffer.data, ParseBooleans(buffer.data, buffer.position, length, []);
    var values := new bool[length];
    ghost var got: seq<bool> := [];
    for i := 0 to length
      invariant buffer.Valid() && |got| == i
      invariant forall k | 0 <= k < i :: values[k] == got[k]
      invariant ParseBooleans(data, buffer.position, length - i, got) == whole
    {
      ghost var p := ParseBoolean(data, buffer.position);
      BooleansStep(data, buffer.position, length - i, got, p);
      var z := ReadBoolean(buffer);
      if z.Err? {
        return Err(z.error);
      }
      values[i] := z.value;
      got := got + [z.value];
    }
    assert values[..] == got;
    r := Ok(values[..]);
  }

  /** `ReadStringArray`. */
  method ReadStringArray(buffer: ByteBuffer) returns (r: Result<seq<seq<byte>>, ReadError>)
    requires buffer.Valid()
    modifies buffer
    ensures buffer.Valid()
    ensures var p := ParseArrayLength(buffer.data, old(buffer.position));
      Advanced(buffer, if p.Ok? then ParseStrings(buffer.data, p.value.next, p.value.value, []) else Err(p.error), r)
  {
    var length :- GetArrayLength(buffer);
    r := ReadStrings(buffer, length);
  }

  /** The loop of `ReadStringArray`. */
  method ReadStrings(buffer: ByteBuffer, length: nat) returns (r: Result<seq<seq<byte>>, ReadError>)
    requires buffer.Valid()
    modifies buffer
    ensures buffer.Valid() && Advanced(buffer, ParseStrings(buffer.data, old(buffer.position), length, []), r)
  {
    ghost var data, whole := buffer.data, ParseStrings(buffer.data, buffer.position, length, []);
    var values := new seq<byte>[length];
    ghost var got: seq<seq<byte>> := [];
    for i := 0 to length
      invariant buffer.Valid() && |got| == i
      invariant forall k | 0 <= k < i :: values[k] == got[k]
      invariant ParseStrings(data, buffer.position, length - i, got) == whole
    {
      ghost var p := ParseString(data, buffer.position);
      StringsStep(data, buffer.position, length - i, got, p);
      var s := ReadString(buffer);
      if s.Err? {
        return Err(s.error);
      }
      values[i] := s.value;
      got := got + [s.value];
    }
    assert values[..] == got;
    r := Ok(values[..]);
  }

  /** `ReadCompoundArray`: the length, then the compounds. */
  method ReadCompoundArray(buffer: ByteBuffer) returns (r: Result<seq<Doc>, ReadError>)
    requires buffer.Valid()
    modifies buffer
    ensures buffer.Valid()
    ensures var p := ParseArrayLength(buffer.data, old(buffer.position));
      Advanced(buffer, if p.Ok? then ParseDocs(buffer.data, p.value.next, p.value.value, []) else Err(p.error), r)
    decreases |buffer.data| - buffer.position, 1
  {
    var length :- GetArrayLength(buffer);
    r := ReadDocs(buffer, length);
  }

  /** The loop of `ReadCompoundArray`: `length` compounds, each read by
      `ReadCompound`, collected in order. */
  method ReadDocs(buffer: ByteBuffer, length: nat) returns (r: Result<seq<Doc>, ReadError>)
    requires buffer.Valid()
    modifies buffer
    ensures buffer.Valid() && Advanced(buffer, ParseDocs(buffer.data, old(buffer.position), length, []), r)
    decreases |buffer.data| - buffer.position, 2
  {
    ghost var data, start, whole := buffer.data, buffer.position, ParseDocs(buffer.data, buffer.position, length, []);
    var values: seq<Doc> := [];
    for i := 0 to length
      invariant buffer.Valid() && start <= buffer.position && |values| == i
      invariant ParseDocs(data, buffer.position, length - i, values) == whole
    {
      ghost var p := ParseCompound(data, buffer.position);
      DocsStep(data, buffer.position, length - i, values, p);
      var d := ReadDoc(buffer);
      if d.Err? {
        return Err(d.error);
      }
      values := values + [d.value];
    }
    r := Ok(values);
  }

  /** `ReadCompound` for an element of a compound array: the compound read,
      taken as the value the array holds. */
  method ReadDoc(buffer: ByteBuffer) returns (r: Result<Doc, ReadError>)
    requires buffer.Valid()
    modifies buffer
    ensures buffer.Valid() && Advanced(buffer, ParseCompound(buffer.data, old(buffer.position)), r)
    decreases |buffer.data| - buffer.position, 1
  {
    var c :- ReadCompound(buffer);
    r := Ok(c.Snapshot());
  }

  /** `ReadCompound`: a new compound, the entry count, then `ReadEntry` for
      i from 0 while i is below the count. */
  method ReadCompound(buffer: ByteBuffer) returns (r: Result<GHDFCompound, ReadError>)
    requires buffer.Valid()
    modifies buffer
    ensures buffer.Valid()
    ensures var p := ParseCompound(buffer.data, old(buffer.position));
      && (r.Ok? <==> p.Ok?) && (r.Err? ==> r.error == p.error)
      && (r.Ok? ==> fresh(r.value) && r.value.Valid() && r.value.Snapshot() == p.value.value && buffer.position == p.value.next)
    decreases |buffer.data| - buffer.position, 0
  {
    var compound := new GHDFCompound();
    var count :- Read7BitEncodedInt(buffer);
    var e := ReadEntries(buffer, compound, count);
    if e.Fail? {
      return Err(e.error);
    }
    r := Ok(compound);
  }

  /** The loop of `ReadCompound`: `ReadEntry` for i from 0 while i is below
      n, each entry stored into compound. */
  method ReadEntries(buffer: ByteBuffer, compound: GHDFCompound, n: int) returns (r: Outcome<ReadError>)
    requires buffer.Valid() && compound.Valid()
    modifies buffer, compound
    ensures buffer.Valid() && compound.Valid()
    ensures var p := ParseEntries(buffer.data, old(buffer.position), n, old(compound.entries));
      Checked(buffer, p, r) && (p.Ok? ==> compound.entries == p.value.value)
    decreases |buffer.data| - buffer.position, 1
  {
    ghost var data, start := buffer.data, buffer.position;
    ghost var whole := ParseEntries(data, buffer.position, n, compound.entries);
    var i: int := 0;
    while i < n
      invariant buffer.Valid() && start <= buffer.position && compound.Valid()
      invariant ParseEntries(data, buffer.position, n - i, compound.entries) == whole
      decreases n - i
    {
      ghost var p := ParseEntry(data, buffer.position);
      EntriesStep(data, buffer.position, n - i, compound.entries, p);
      var e := ReadEntry(buffer, compound);
      if e.Fail? {
        return Fail(e.error);
      }
      i := i + 1;
    }
    r := Pass;
  }

  /** `ReadEntry`: id, `VerifyID`, tag byte, `ByteToEnum`, the value by the
      tag's reader, then `SetEntry`. */
  method ReadEntry(buffer: ByteBuffer, compound: GHDFCompound) returns (r: Outcome<ReadError>)
    requires buffer.Valid() && compound.Valid()
    modifies buffer, compound
    ensures buffer.Valid() && compound.Valid()
    ensures var p := ParseEntry(buffer.data, old(buffer.position));
      && Checked(buffer, p, r)
      && compound.entries == if p.Ok? then old(compound.entries)[p.value.value.0 := p.value.value.1] else old(compound.entries)
    decreases |buffer.data| - buffer.position, 0
  {
    var id := Read7BitEncodedInt(buffer);
    if id.Err? {
      return Fail(id.error);
    }
    if id.value == 0 {
      return Fail(IllegalIdZero);
    }
    var tag := buffer.Get();
    if tag.Err? {
      return Fail(tag.error);
    }
    var entryType := ByteToEnum(tag.value);
    if entryType.Err? {
      return Fail(InvalidEntryType(id.value, tag.value));
    }
    var value := ReadPayload(buffer, entryType.value);
    if value.Err? {
      return Fail(WrapEntry(id.value, value.error));
    }
    var _ := compound.SetEntry(id.value, value.value);
    r := Pass;
  }

  /** `_readMethods.get(type).Read(data)`: the reader the dispatch table holds. */
  method ReadPayload(buffer: ByteBuffer, t: GHDFType) returns (r: Result<Value, ReadError>)
    requires buffer.Valid()
    modifies buffer
    ensures buffer.Valid() && Advanced(buffer, ParsePayload(buffer.data, old(buffer.position), t), r)
    decreases |buffer.data| - buffer.position, 3
  {
    if IsArray(t) {
      r := ReadArrayPayload(buffer, t);
    } else {
      r := ReadScalarPayload(buffer, t);
    }
  }

  /** The table's readers of scalar kinds. */
  method ReadScalarPayload(buffer: ByteBuffer, t: GHDFType) returns (r: Result<Value, ReadError>)
    requires buffer.Valid() && !IsArray(t)
    modifies buffer
    ensures buffer.Valid() && Advanced(buffer, ParseScalarPayload(buffer.data, old(buffer.position), t), r)
    decreases |buffer.data| - buffer.position, 2
  {
    match t
    case Int8 | UInt8 => r := ReadByte(buffer);
    case Int16 | UInt16 => r := ReadShort(buffer);
    case Int32 | UInt32 => r := ReadInt(buffer);
    case Int64 | UInt64 => r := ReadLong(buffer);
    case Float => r := ReadFloat(buffer);
    case Double => r := ReadDouble(buffer);
    case Boolean =>
      var z :- ReadBoolean(buffer);
      r := Ok(BoolVal(z));
    case String =>
      var s :- ReadString(buffer);
      r := Ok(StringVal(s));
    case Compound =>
      var c :- ReadCompound(buffer);
      r := Ok(CompoundVal(c.Snapshot()));
  }

  /** The table's readers of array kinds. */
  method ReadArrayPayload(buffer: ByteBuffer, t: GHDFType) returns (r: Result<Value, ReadError>)
    requires buffer.Valid() && IsArray(t)
    modifies buffer
    ensures buffer.Valid() && Advanced(buffer, ParseArrayPayload(buffer.data, old(buffer.position), t), r)
    decreases |buffer.data| - buffer.position, 2
  {
    Pow256Widths();
    match t
    case Int8Array | UInt8Array =>
      var a :- ReadByteArray(buffer);
      r := Ok(ByteArrayVal(a));
    case Int16Array | UInt16Array => r := ReadShortArray(buffer);
    case Int32Array | UInt32Array => r := ReadIntArray(buffer);
    case Int64Array | UInt64Array => r := ReadLongArray(buffer);
    case FloatArray => r := ReadFloatArray(buffer);
    case DoubleArray => r := ReadDoubleArray(buffer);
    case BooleanArray =>
      var a :- ReadBooleanArray(buffer);
      r := Ok(BoolArrayVal(a));
    case StringArray =>
      var a :- ReadStringArray(buffer);
      r := Ok(StringArrayVal(a));
    case CompoundArray =>
      var a :- ReadCompoundArray(buffer);
      r := Ok(CompoundArrayVal(a));
  }

  /** `VerifySignature`. */
  method VerifySignature(buffer: ByteBuffer) returns (r: Outcome<ReadError>)
    requires buffer.Valid()
    modifies buffer
    ensures buffer.Valid() && Checked(buffer, ParseSignature(buffer.data, old(buffer.position)), r)
  {
    var read := buffer.GetArray(|GhdfConstants.SIGNATURE|);
    if read.Err? {
      return Fail(read.error);
    }
    if read.value != GhdfConstants.SIGNATURE {
      return Fail(InvalidSignature);
    }
    r := Pass;
  }

  /** `VerifyVersion`. */
  method VerifyVersion(buffer: ByteBuffer) returns (r: Outcome<ReadError>)
    requires buffer.Valid()
    modifies buffer
    ensures buffer.Valid() && Checked(buffer, ParseVersion(buffer.data, old(buffer.position)), r)
  {
    Pow256Widths();
    var version := buffer.GetWord(4, true);
    if version.Err? {
      return Fail(version.error);
    }
    if version.value != GhdfConstants.VERSION {
      return Fail(UnsupportedVersion(version.value));
    }
    r := Pass;
  }

  /** `Read(InputStream)`: the stream's bytes wrapped in a buffer, then
      signature, version, the root compound, and a check that nothing remains. */
  method Read(bytes: seq<byte>) returns (r: Result<GHDFCompound, ReadError>)
    ensures var p := ParseDocument(bytes);
      && (r.Ok? <==> p.Ok?) && (r.Err? ==> r.error == p.error)
      && (r.Ok? ==> fresh(r.value) && r.value.Valid() && r.value.Snapshot() == p.value)
  {
    var buffer := new ByteBuffer.Wrap(bytes);
    var signature := VerifySignature(buffer);
    if signature.Fail? {
      return Err(signature.error);
    }
    var version := VerifyVersion(buffer);
    if version.Fail? {
      return Err(version.error);
    }
    var compound :- ReadCompound(buffer);
    if buffer.Remaining() > 0 {
      return Err(TrailingData);
    }
    r := Ok(compound);
  }
}
