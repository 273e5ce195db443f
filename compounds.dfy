/** `GHDFCompound`: a mutable map from non-zero `int` ids to entries. An entry's
    value is one of the Java shapes `GHDFEntry` accepts; its type is inferred
    from that shape when the entry is set and never changes, so the model keeps
    the value and recomputes the type with `InferType`. A nested compound is
    held as a `Doc`, the value of that compound's map. */
module Compounds {
  import opened Wrappers
  import opened Bytes
  import opened TypeTags

  /** The contents of a compound: its id-to-value map. */
  datatype Doc = Doc(entries: map<int32, Value>)

  /** The Java runtime shapes `GHDFEntry` assigns a type to. */
  datatype Value =
    | ByteVal(b: int8)
    | ShortVal(s: int16)
    | IntVal(i: int32)
    | LongVal(l: int64)
    | FloatVal(fbits: uint32)
    | DoubleVal(dbits: uint64)
    | BoolVal(z: bool)
    | StringVal(str: seq<byte>)
    | CompoundVal(doc: Doc)
    | ByteArrayVal(bytes: seq<int8>)
    | ShortArrayVal(shorts: seq<int16>)
    | IntArrayVal(ints: seq<int32>)
    | LongArrayVal(longs: seq<int64>)
    | FloatArrayVal(floats: seq<uint32>)
    | DoubleArrayVal(doubles: seq<uint64>)
    | BoolArrayVal(bools: seq<bool>)
    | StringArrayVal(strs: seq<seq<byte>>)
    | CompoundArrayVal(docs: seq<Doc>)

  /** The Java array shapes. */
  predicate IsArrayShape(v: Value) {
    || v.ByteArrayVal? || v.ShortArrayVal? || v.IntArrayVal? || v.LongArrayVal?
    || v.FloatArrayVal? || v.DoubleArrayVal? || v.BoolArrayVal? || v.StringArrayVal?
    || v.CompoundArrayVal?
  }

  /** The `instanceof` chain of `GHDFEntry`'s constructor. Boxed integers and
      integer arrays always get the signed constant, so inference never yields
      an unsigned kind, and it yields an array kind exactly for the array
      shapes. */
  function InferType(v: Value): (t: GHDFType)
    ensures !IsUnsigned(t)
    ensures IsArray(t) <==> IsArrayShape(v)
  {
    match v
    case ByteVal(_) => Int8
    case ShortVal(_) => Int16
    case IntVal(_) => Int32
    case LongVal(_) => Int64
    case FloatVal(_) => Float
    case DoubleVal(_) => Double
    case BoolVal(_) => Boolean
    case StringVal(_) => String
    case CompoundVal(_) => Compound
    case ByteArrayVal(_) => Int8Array
    case ShortArrayVal(_) => Int16Array
    case IntArrayVal(_) => Int32Array
    case LongArrayVal(_) => Int64Array
    case FloatArrayVal(_) => FloatArray
    case DoubleArrayVal(_) => DoubleArray
    case BoolArrayVal(_) => BooleanArray
    case StringArrayVal(_) => StringArray
    case CompoundArrayVal(_) => CompoundArray
  }

  /** No entry of d, at any depth, has id 0. */
  predicate NoZeroIds(d: Doc)
    decreases d, 1
  {
    && 0 !in d.entries
    && forall id | id in d.entries :: ValueNoZeroIds(d.entries[id])
  }

  predicate ValueNoZeroIds(v: Value)
    decreases v, 0
  {
    match v
    case CompoundVal(d) => NoZeroIds(d)
    case CompoundArrayVal(ds) => forall i | 0 <= i < |ds| :: NoZeroIds(ds[i])
    case _ => true
  }

  /** No entry of d, at any depth, has an id below 1. */
  predicate PositiveIds(d: Doc)
    decreases d, 1
  {
    forall id | id in d.entries :: id > 0 && ValuePositiveIds(d.entries[id])
  }

  predicate ValuePositiveIds(v: Value)
    decreases v, 0
  {
    match v
    case CompoundVal(d) => PositiveIds(d)
    case CompoundArrayVal(ds) => forall i | 0 <= i < |ds| :: PositiveIds(ds[i])
    case _ => true
  }

  /** A Java `int` counts every length: 2^31 - 1 at most. */
  const MAX_LENGTH: nat := 0x7FFF_FFFF

  /** Every size, array length and string byte length in d is at most
      MAX_LENGTH, at every depth: what Java's `int` lengths guarantee. */
  predicate SizedDoc(d: Doc)
    decreases d, 1
  {
    && |d.entries| <= MAX_LENGTH
    && forall id | id in d.entries :: SizedValue(d.entries[id])
  }

  predicate SizedValue(v: Value)
    decreases v, 0
  {
    match v
    case StringVal(s) => |s| <= MAX_LENGTH
    case CompoundVal(d) => SizedDoc(d)
    case ByteArrayVal(a) => |a| <= MAX_LENGTH
    case ShortArrayVal(a) => |a| <= MAX_LENGTH
    case IntArrayVal(a) => |a| <= MAX_LENGTH
    case LongArrayVal(a) => |a| <= MAX_LENGTH
    case FloatArrayVal(a) => |a| <= MAX_LENGTH
    case DoubleArrayVal(a) => |a| <= MAX_LENGTH
    case BoolArrayVal(a) => |a| <= MAX_LENGTH
    case StringArrayVal(a) => |a| <= MAX_LENGTH && forall i | 0 <= i < |a| :: |a[i]| <= MAX_LENGTH
    case CompoundArrayVal(ds) => |ds| <= MAX_LENGTH && forall i | 0 <= i < |ds| :: SizedDoc(ds[i])
    case _ => true
  }

  /** Every short, int, long, float and double array in d, at any depth,
      fills at most MAX_LENGTH bytes at 2, 4 or 8 bytes an element: the writer
      sizes the buffer for such an array as a Java `int` product. */
  predicate BuffersFit(d: Doc)
    decreases d, 1
  {
    forall id | id in d.entries :: ValueBuffersFit(d.entries[id])
  }

  predicate ValueBuffersFit(v: Value)
    decreases v, 0
  {
    match v
    case CompoundVal(d) => BuffersFit(d)
    case ShortArrayVal(a) => 2 * |a| <= MAX_LENGTH
    case IntArrayVal(a) => 4 * |a| <= MAX_LENGTH
    case LongArrayVal(a) => 8 * |a| <= MAX_LENGTH
    case FloatArrayVal(a) => 4 * |a| <= MAX_LENGTH
    case DoubleArrayVal(a) => 8 * |a| <= MAX_LENGTH
    case CompoundArrayVal(ds) => forall i | 0 <= i < |ds| :: BuffersFit(ds[i])
    case _ => true
  }

  /** The documents the body round trip covers: positive ids, Java-sized, and
      every array buffer within an `int`. */
  predicate ValidDoc(d: Doc) {
    PositiveIds(d) && SizedDoc(d) && BuffersFit(d)
  }

  /** `GHDFEntryException`, as far as the accessors raise it. */
  datatype EntryError = IdZero | MandatoryEntryMissing(id: int32, expected: GHDFType)

  /** `VerifyID`: id 0 is reserved. */
  function VerifyID(id: int32): (r: Outcome<EntryError>)
    ensures r.Pass? <==> id != 0
    ensures r.Fail? ==> r.error == IdZero
  {
    if id == 0 then Fail(IdZero) else Pass
  }

  class GHDFCompound {
    var entries: map<int32, Value>

    /** No stored id is 0. */
    ghost predicate Valid()
      reads this
    {
      0 !in entries
    }

    constructor ()
      ensures Valid() && entries == map[]
    {
      entries := map[];
    }

    /** The compound's contents as a value, as a parent compound holds it. */
    function Snapshot(): (d: Doc)
      reads this
      ensures d.entries == entries
    {
      Doc(entries)
    }

    /** `GetIDs`: the key set. */
    function GetIDs(): (ids: set<int32>)
      reads this
      ensures forall id :: id in ids <==> id in entries
    {
      entries.Keys
    }

    /** `Size`: the number of stored ids. */
    function Size(): (n: nat)
      reads this
      ensures n == |GetIDs()|
    {
      |entries|
    }

    /** `GetTypeOfEntry`: checks no id, so id 0 simply finds nothing. */
    function GetTypeOfEntry(id: int32): (t: Option<GHDFType>)
      reads this
      ensures t.Some? <==> id in GetIDs()
      ensures t.Some? ==> t.value == InferType(entries[id])
      ensures Valid() && id == 0 ==> t == None
    {
      if id in entries then Some(InferType(entries[id])) else None
    }

    /** The private `GetEntry(id, elseValue, expectedType, isMandatory)` that
        every public accessor calls. The unchecked cast cannot fail, so the stored
        value comes back whatever `expectedType` says. */
    function Lookup(id: int32, elseValue: Option<Value>, expectedType: Option<GHDFType>,
                    isMandatory: bool): (r: Result<Option<Value>, EntryError>)
      reads this
      ensures id == 0 ==> r == Err(IdZero)
      ensures id != 0 && id in GetIDs() ==> r == Ok(Some(entries[id]))
      ensures id != 0 && id !in GetIDs() && isMandatory && expectedType.Some? ==>
                r == Err(MandatoryEntryMissing(id, expectedType.value))
      ensures id != 0 && id !in GetIDs() && !(isMandatory && expectedType.Some?) ==>
                r == Ok(elseValue)
    {
      if id == 0 then Err(IdZero)
      else if id !in entries then
        if isMandatory && expectedType.Some? then Err(MandatoryEntryMissing(id, expectedType.value))
        else Ok(elseValue)
      else Ok(Some(entries[id]))
    }

    /** `GetEntry(id)`: the stored value, or null when absent. */
    function GetEntry(id: int32): (r: Result<Option<Value>, EntryError>)
      reads this
      ensures r.Err? <==> id == 0
      ensures r.Ok? ==> (r.value.Some? <==> GetTypeOfEntry(id).Some?)
      ensures r.Ok? && r.value.Some? ==> Some(InferType(r.value.value)) == GetTypeOfEntry(id)
      ensures r.Ok? ==> r.value == if id in entries then Some(entries[id]) else None
    {
      Lookup(id, None, None, false)
    }

    /** `GetOrElse(id, elseValue)`: the stored value, or elseValue when absent. */
    function GetOrElse(id: int32, elseValue: Value): (r: Result<Value, EntryError>)
      reads this
      ensures r.Err? <==> id == 0
      ensures r.Ok? && id !in GetIDs() ==> r.value == elseValue
      ensures r.Ok? && id in GetIDs() ==> GetEntry(id) == Ok(Some(r.value))
    {
      var found :- Lookup(id, Some(elseValue), None, false);
      Ok(found.value)
    }

    /** `GetVerifiedEntry(id, expectedType)`: fails when the entry is absent and
        an expected type was given; expectedType is never compared with the
        stored type. */
    function GetVerifiedEntry(id: int32, expectedType: Option<GHDFType>): (r: Result<Option<Value>, EntryError>)
      reads this
      ensures r.Err? <==> id == 0 || (id !in GetIDs() && expectedType.Some?)
      ensures r.Ok? ==> r == GetEntry(id)
    {
      Lookup(id, None, expectedType, true)
    }

    /** `GetVerifiedOptionalEntry(id, expectedType)`: GetEntry, whatever the
        expected type. */
    function GetVerifiedOptionalEntry(id: int32, expectedType: Option<GHDFType>): (r: Result<Option<Value>, EntryError>)
      reads this
      ensures r == GetEntry(id)
    {
      Lookup(id, None, expectedType, false)
    }

    /** `SetEntry(id, value)`: rejects id 0 and leaves the map as it was;
        otherwise stores the value, replacing any earlier entry for id. */
    method SetEntry(id: int32, value: Value) returns (r: Outcome<EntryError>)
      requires Valid()
      modifies this
      ensures Valid()
      ensures r == VerifyID(id)
      ensures r.Fail? ==> entries == old(entries)
      ensures r.Pass? ==> entries == old(entries)[id := value]
      ensures r.Pass? ==> GetEntry(id) == Ok(Some(value)) && GetTypeOfEntry(id) == Some(InferType(value))
      ensures forall other :: other != id ==> GetEntry(other) == old(GetEntry(other))
    {
      r := VerifyID(id);
      if r.Pass? {
        entries := entries[id := value];
      }
    }

    /** `RemoveEntry(id)`: rejects id 0; otherwise drops the entry if present. */
    method RemoveEntry(id: int32) returns (r: Outcome<EntryError>)
      requires Valid()
      modifies this
      ensures Valid()
      ensures r == VerifyID(id)
      ensures r.Fail? ==> entries == old(entries)
      ensures r.Pass? ==> entries == old(entries) - {id}
      ensures r.Pass? ==> GetEntry(id) == Ok(None) && GetTypeOfEntry(id) == None
      ensures r.Pass? ==> Size() == if id in old(GetIDs()) then old(Size()) - 1 else old(Size())
      ensures forall other :: other != id ==> GetEntry(other) == old(GetEntry(other))
    {
      r := VerifyID(id);
      if r.Pass? {
        entries := entries - {id};
      }
    }

    /** `Clear`. */
    method Clear()
      requires Valid()
      modifies this
      ensures Valid()
      ensures entries == map[] && Size() == 0 && GetIDs() == {}
    {
      entries := map[];
    }
  }
}
