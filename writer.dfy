/** `GHDFWriterVersion1`: the document header, the base-128 varint, the
    fixed-width little-endian scalars, length-prefixed strings and arrays, and
    the recursive compound and entry encoding. Each Java `Write*` method is a
    method here that returns the bytes it appends to the stream (or the
    `GHDFWriteException` it throws), proved equal to an `Encode*` function that
    states the layout. */
module WriterV1 {
  import opened Wrappers
  import opened Bytes
  import opened TypeTags
  import opened Compounds
  import GhdfConstants

  /** What the writer throws. The first three are `GHDFWriteException`s;
      `EntryFailed` is the wrapping done by `WriteCompound`'s catch, carrying the
      id of the entry being written. The last two are the unchecked exceptions
      of an array buffer whose `int` size overflowed: `ByteBuffer.allocate`
      refuses a negative size (`IllegalArgumentException`), and a put past the
      end of a buffer that wrapped to a smaller size throws
      `BufferOverflowException`. */
  datatype WriteError =
    | InvalidId
    | CastFailed(id: int32, t: GHDFType)
    | EntryFailed(id: int32, inner: WriteError)
    | NegativeCapacity(size: int)
    | BufferOverflow

  /** The errors that are a `GHDFWriteException`, the only ones the catch of
      `WriteCompound` wraps. */
  predicate IsWriteException(e: WriteError) {
    e.InvalidId? || e.CastFailed? || e.EntryFailed?
  }

  /** The error `WriteCompound` throws when writing entry id throws e. */
  function Caught(id: int32, e: WriteError): (w: WriteError)
    ensures IsWriteException(e) ==> w == EntryFailed(id, e)
    ensures !IsWriteException(e) ==> w == e
  {
    if IsWriteException(e) then EntryFailed(id, e) else e
  }

  /** 128 to the power n. */
  function Pow128(n: nat): (r: nat)
    ensures r > 0
  {
    if n == 0 then 1 else 0x80 * Pow128(n - 1)
  }

  // ---------------------------------------------------------------- varint

  /** The bytes `Write7BitEncodedInt` emits for the unsigned 64-bit view u:
      seven bits per byte, least significant group first, bit 7 set on every
      byte but the last. */
  function Varint(u: nat): (bs: seq<byte>)
    ensures |bs| >= 1
    decreases u
  {
    if u < 0x80 then [u] else [u % 0x80 + 0x80] + Varint(u / 0x80)
  }

  /** `Write7BitEncodedInt(stream, value)` for a Java `long`: `>>>` works on the
      unsigned view, so a negative value is sign-extended to 64 bits. */
  function VarintOf(x: int64): seq<byte> {
    Varint(ToUnsigned(x, 8))
  }

  /** The value the 7-bit groups of bs denote, least significant first. */
  function FromGroups(bs: seq<byte>): nat {
    if bs == [] then 0 else bs[0] % 0x80 + 0x80 * FromGroups(bs[1..])
  }

  /** The unsigned view and its shift: `x & 0x7F`, the continuation test and
      `x >>> 7` of the Java loop, stated on the 64-bit pattern. */
  lemma UnsignedStep(x: int64)
    ensures ToUnsigned(x, 8) % 0x80 == x % 0x80
    ensures ToUnsigned(x, 8) >= 0x80 <==> (x > 0x7F || x < 0)
    ensures ToUnsigned(x, 8) / 0x80 < 0x8000_0000_0000_0000
  {
    Pow256Widths();
  }

  /** One turn of the Java loop, stated on the varint of the unsigned view. */
  lemma VarintStep(x: int64)
    ensures var u := ToUnsigned(x, 8);
      var flag := if x > 0x7F || x < 0 then 0x80 else 0;
      && u / 0x80 < 0x8000_0000_0000_0000
      && ToUnsigned(u / 0x80, 8) == u / 0x80
      && Varint(u)[0] == x % 0x80 + flag
      && (u / 0x80 == 0 ==> Varint(u) == [x % 0x80 + flag])
      && (u / 0x80 != 0 ==> Varint(u) == [x % 0x80 + flag] + Varint(u / 0x80))
  {
    UnsignedStep(x);
    Pow256Widths();
  }

  /** `Write7BitEncodedInt`: the do-while loop over `CurrentValue`. */
  method Write7BitEncodedInt(value: int64) returns (bs: seq<byte>)
    ensures bs == VarintOf(value)
  {
    var current: int64 := value;
    bs := [];
    var more := true;
    while more
      invariant more ==> bs + Varint(ToUnsigned(current, 8)) == VarintOf(value)
      invariant !more ==> bs == VarintOf(value)
      decreases if more then ToUnsigned(current, 8) + 1 else 0
    {
      VarintStep(current);
      var flag := if current > 0x7F || current < 0 then 0x80 else 0;
      bs := bs + [current % 0x80 + flag];
      current := ToUnsigned(current, 8) / 0x80;
      more := current != 0;
    }
  }

  /** Every byte but the last has bit 7 set, the last has it clear; exactly the
      value 0 is the single byte 0x00. */
  lemma {:induction false} VarintShape(u: nat)
    ensures var bs := Varint(u);
      && bs[|bs| - 1] < 0x80
      && (forall i | 0 <= i < |bs| - 1 :: bs[i] >= 0x80)
      && (bs == [0] <==> u == 0)
    decreases u
  {
    if u >= 0x80 {
      VarintShape(u / 0x80);
      var bs := Varint(u);
      assert bs[1..] == Varint(u / 0x80);
    }
  }

  /** The groups, read little-endian, give the value back. */
  lemma {:induction false} VarintGroups(u: nat)
    ensures FromGroups(Varint(u)) == u
    decreases u
  {
    if u >= 0x80 {
      VarintGroups(u / 0x80);
      assert Varint(u)[1..] == Varint(u / 0x80);
    }
  }

  /** A value takes at most k bytes exactly when it is below 128^k. */
  lemma {:induction false} VarintLength(u: nat, k: nat)
    requires k >= 1
    ensures |Varint(u)| <= k <==> u < Pow128(k)
    decreases u
  {
    if u >= 0x80 {
      if k == 1 {
      } else {
        VarintLength(u / 0x80, k - 1);
      }
    }
  }

  lemma Pow128Values()
    ensures Pow128(5) == 0x8_0000_0000
    ensures Pow128(9) == 0x8000_0000_0000_0000
    ensures Pow128(10) == 0x40_0000_0000_0000_0000
  {
    assert Pow128(2) == 0x4000;
    assert Pow128(4) == 0x1000_0000;
    assert Pow128(5) == 0x8_0000_0000;
    assert Pow128(7) == 0x2_0000_0000_0000;
    assert Pow128(9) == 0x8000_0000_0000_0000;
  }

  /** A non-negative `int` takes one to five bytes; a negative one is
      sign-extended by the `long` parameter and takes ten. */
  lemma VarintOfInt32Length(x: int32)
    ensures x >= 0 ==> 1 <= |VarintOf(x)| <= 5
    ensures x < 0 ==> |VarintOf(x)| == 10
  {
    Pow128Values();
    Pow256Widths();
    if x >= 0 {
      VarintLength(ToUnsigned(x, 8), 5);
    } else {
      VarintLength(ToUnsigned(x, 8), 9);
      VarintLength(ToUnsigned(x, 8), 10);
    }
  }

  // ------------------------------------------------------------- scalars

  /** `WriteByte`, `WriteShort`, `WriteInt`, `WriteLong`: the value's
      two's-complement pattern, little-endian, in `width` bytes. `WriteFloat` and
      `WriteDouble` write the raw bit pattern the same way. */
  function EncodeFixed(x: int, width: nat): (bs: seq<byte>)
    ensures |bs| == width
  {
    LittleEndian(ToUnsigned(x, width), width)
  }

  /** Fixed-width scalars read back: the pattern decodes to the value. */
  lemma EncodeFixedRoundTrip(x: int, width: nat)
    requires IsJavaWidth(width) && -(Pow256(width) / 2) <= x < Pow256(width) / 2
    ensures ToSigned(FromLittleEndian(EncodeFixed(x, width)), width) == x
  {
    LittleEndianRoundTrip(ToUnsigned(x, width), width);
    SignedRoundTrip(x, width);
  }

  /** `WriteBoolean`. */
  function EncodeBoolean(z: bool): (bs: seq<byte>)
    ensures |bs| == 1 && (bs[0] == 1 <==> z) && (bs[0] == 0 <==> !z)
  {
    [if z then 1 else 0]
  }

  /** `WriteString`: the byte length as a varint, then the bytes. */
  function EncodeString(s: seq<byte>): seq<byte> {
    Varint(|s|) + s
  }

  /** The element encodings of a fixed-width array, concatenated. */
  function EncodeWords(xs: seq<int>, width: nat): (bs: seq<byte>)
    ensures |bs| == width * |xs|
  {
    if xs == [] then [] else EncodeFixed(xs[0], width) + EncodeWords(xs[1..], width)
  }

  lemma {:induction false} EncodeWordsAppend(xs: seq<int>, x: int, width: nat)
    ensures EncodeWords(xs + [x], width) == EncodeWords(xs, width) + EncodeFixed(x, width)
  {
    if xs != [] {
      assert (xs + [x])[1..] == xs[1..] + [x];
      EncodeWordsAppend(xs[1..], x, width);
    }
  }

  function EncodeBooleans(zs: seq<bool>): (bs: seq<byte>)
    ensures |bs| == |zs|
  {
    if zs == [] then [] else EncodeBoolean(zs[0]) + EncodeBooleans(zs[1..])
  }

  /** Byte k of a boolean array's encoding is the encoding of element k. */
  lemma {:induction false} EncodeBooleansBytes(zs: seq<bool>)
    ensures forall i | 0 <= i < |zs| :: EncodeBooleans(zs)[i] == EncodeBoolean(zs[i])[0]
  {
    if zs != [] {
      EncodeBooleansBytes(zs[1..]);
      assert forall i | 1 <= i < |zs| :: zs[i] == zs[1..][i - 1];
    }
  }

  function EncodeStrings(ss: seq<seq<byte>>): seq<byte> {
    if ss == [] then [] else EncodeString(ss[0]) + EncodeStrings(ss[1..])
  }

  lemma {:induction false} EncodeStringsAppend(ss: seq<seq<byte>>, s: seq<byte>)
    ensures EncodeStrings(ss + [s]) == EncodeStrings(ss) + EncodeString(s)
  {
    if ss != [] {
      assert (ss + [s])[1..] == ss[1..] + [s];
      EncodeStringsAppend(ss[1..], s);
    }
  }

  // ------------------------------------------------------- ids and entries

  /** The writer's iteration order over a key set. `HashMap` order is not
      specified; the model fixes ascending order. */
  function SortedIds(s: set<int32>): (r: seq<int32>)
    ensures forall id :: id in r <==> id in s
    ensures |r| == |s|
    decreases s
  {
    if s == {} then []
    else
      var m := MinId(s);
      [m] + SortedIds(s - {m})
  }

  /** The order is strictly ascending, so every id appears exactly once. */
  lemma {:induction false} SortedIdsAscending(s: set<int32>)
    ensures forall i, j | 0 <= i < j < |SortedIds(s)| :: SortedIds(s)[i] < SortedIds(s)[j]
    decreases s
  {
    if s != {} {
      var m := MinId(s);
      var rest := SortedIds(s - {m});
      SortedIdsAscending(s - {m});
      var r := SortedIds(s);
      assert r == [m] + rest;
      forall i, j | 0 <= i < j < |r|
        ensures r[i] < r[j]
      {
        if i == 0 {
          assert r[0] == m && r[j] == rest[j - 1];
          assert rest[j - 1] in s && rest[j - 1] != m;
        } else {
          assert r[i] == rest[i - 1] && r[j] == rest[j - 1];
          assert rest[i - 1] < rest[j - 1];
        }
      }
    }
  }

  /** The least id of a non-empty set. */
  function MinId(s: set<int32>): (m: int32)
    requires s != {}
    ensures m in s && forall x | x in s :: m <= x
  {
    MinExists(s);
    var m :| m in s && forall x | x in s :: m <= x;
    m
  }

  lemma {:induction false} MinExists(s: set<int32>)
    requires s != {}
    ensures exists m :: m in s && forall x | x in s :: m <= x
    decreases s
  {
    var y :| y in s;
    if s - {y} == {} {
      MinOfOne(s, y);
    } else {
      MinExists(s - {y});
      var m :| m in s - {y} && forall x | x in s - {y} :: m <= x;
      MinOfAdded(s, y, m);
    }
  }

  lemma MinOfOne(s: set<int32>, y: int32)
    requires y in s && s - {y} == {}
    ensures forall x | x in s :: y <= x
  {
    forall x | x in s
      ensures y <= x
    {
      assert x !in s - {y};
    }
  }

  lemma MinOfAdded(s: set<int32>, y: int32, m: int32)
    requires y in s && m in s - {y} && forall x | x in s - {y} :: m <= x
    ensures var least := if y < m then y else m; least in s && forall x | x in s :: least <= x
  {
    forall x | x in s
      ensures (if y < m then y else m) <= x
    {
      if x != y {
        assert x in s - {y};
      }
    }
  }

  /** bs in front of a successful encoding; an error passes through. */
  function Prepend(bs: seq<byte>, r: Result<seq<byte>, WriteError>): Result<seq<byte>, WriteError> {
    if r.Ok? then Ok(bs + r.value) else r
  }

  /** `WriteCompound`: `varint(Size())`, then every entry, each under its
      stored type; a `GHDFWriteException` of an entry is reported with its id. */
  function EncodeCompound(d: Doc): (r: Result<seq<byte>, WriteError>)
    decreases d, 2
  {
    var body :- EncodeEntries(d, SortedIds(d.entries.Keys));
    Ok(Varint(|d.entries|) + body)
  }

  /** The entries of d with ids ids, in that order: the loop of `WriteCompound`
      with its `VerifyID` and its catch. */
  function EncodeEntries(d: Doc, ids: seq<int32>): (r: Result<seq<byte>, WriteError>)
    requires forall id | id in ids :: id in d.entries
    decreases d, 1, |ids|
  {
    if ids == [] then Ok([])
    else
      var id := ids[0];
      if id == 0 then Err(EntryFailed(0, InvalidId))
      else
        var v := d.entries[id];
        match EncodeEntry(id, v, InferType(v))
        case Err(e) => Err(Caught(id, e))
        case Ok(entry) => Prepend(entry, EncodeEntries(d, ids[1..]))
  }

  /** `WriteEntry(stream, id, value, type)`: `varint(id)`, the tag byte, then
      the payload of the writer the dispatch table holds for type. That writer's
      cast succeeds exactly when the value has the shape of type or of its
      unsigned twin, which share one writer. */
  function EncodeEntry(id: int32, v: Value, t: GHDFType): (r: Result<seq<byte>, WriteError>)
    decreases v, 2
  {
    if id == 0 then Err(InvalidId)
    else if SignedTwin(t) != InferType(v) then Err(CastFailed(id, t))
    else
      var payload :- EncodeValue(v);
      Ok(VarintOf(id) + [GetByteData(t)] + payload)
  }

  /** The payload each dispatch entry writes. */
  function EncodeValue(v: Value): (r: Result<seq<byte>, WriteError>)
    decreases v, 1
  {
    if IsArrayShape(v) then EncodeArray(v) else EncodeScalar(v)
  }

  /** The writers of scalar kinds. */
  function EncodeScalar(v: Value): (r: Result<seq<byte>, WriteError>)
    requires !IsArrayShape(v)
    decreases v, 0
  {
    match v
    case ByteVal(x) => Ok(EncodeFixed(x, 1))
    case ShortVal(x) => Ok(EncodeFixed(x, 2))
    case IntVal(x) => Ok(EncodeFixed(x, 4))
    case LongVal(x) => Ok(EncodeFixed(x, 8))
    case FloatVal(x) => Ok(EncodeFixed(x, 4))
    case DoubleVal(x) => Ok(EncodeFixed(x, 8))
    case BoolVal(z) => Ok(EncodeBoolean(z))
    case StringVal(s) => Ok(EncodeString(s))
    case CompoundVal(d) => EncodeCompound(d)
  }

  /** The writers of array kinds: the length, then the elements. */
  function EncodeArray(v: Value): (r: Result<seq<byte>, WriteError>)
    requires IsArrayShape(v)
    decreases v, 0
  {
    match v
    case ByteArrayVal(a) => Ok(Varint(|a|) + EncodeWords(a, 1))
    case ShortArrayVal(a) => EncodeWordArray(a, 2)
    case IntArrayVal(a) => EncodeWordArray(a, 4)
    case LongArrayVal(a) => EncodeWordArray(a, 8)
    case FloatArrayVal(a) => EncodeWordArray(a, 4)
    case DoubleArrayVal(a) => EncodeWordArray(a, 8)
    case BoolArrayVal(a) => Ok(Varint(|a|) + EncodeBooleans(a))
    case StringArrayVal(a) => Ok(Varint(|a|) + EncodeStrings(a))
    case CompoundArrayVal(ds) => Prepend(Varint(|ds|), EncodeDocs(ds))
  }

  /** `width * length` as the Java `int` handed to `GetByteBuffer`: the
      product wraps modulo 2^32. */
  function BufferSize(width: nat, n: nat): (size: int)
    ensures -0x8000_0000 <= size <= MAX_LENGTH
  {
    Pow256Widths();
    ToSigned((width * n) % 0x1_0000_0000, 4)
  }

  /** A fixed-width array writer: the count, then a buffer of `BufferSize`
      bytes receiving one put per element. A negative size is refused by
      `allocate`; a size that wrapped below `width * n` overflows on a put. */
  function EncodeWordArray(xs: seq<int>, width: nat): (r: Result<seq<byte>, WriteError>)
  {
    var size := BufferSize(width, |xs|);
    if size < 0 then Err(NegativeCapacity(size))
    else if size < width * |xs| then Err(BufferOverflow)
    else Ok(Varint(|xs|) + EncodeWords(xs, width))
  }

  /** The buffer size is exact while the product fits an `int`; beyond that it
      is negative or smaller than the product. */
  lemma BufferSizeWraps(width: nat, n: nat)
    ensures width * n <= MAX_LENGTH ==> BufferSize(width, n) == width * n
    ensures width * n > MAX_LENGTH ==> BufferSize(width, n) < 0 || BufferSize(width, n) < width * n
  {
    var p := width * n;
    Pow256Widths();
    if p <= MAX_LENGTH {
      assert p % 0x1_0000_0000 == p;
    } else {
      assert p % 0x1_0000_0000 <= p;
    }
  }

  /** A fixed-width array is written exactly when its elements fill at most
      2^31 - 1 bytes, and then it is its count before its words; otherwise the
      writer throws one of the buffer's exceptions. */
  lemma WordArrayOk(xs: seq<int>, width: nat)
    ensures EncodeWordArray(xs, width).Ok? <==> width * |xs| <= MAX_LENGTH
    ensures EncodeWordArray(xs, width).Ok? ==> EncodeWordArray(xs, width).value == Varint(|xs|) + EncodeWords(xs, width)
    ensures EncodeWordArray(xs, width).Err? ==> !IsWriteException(EncodeWordArray(xs, width).error)
  {
    BufferSizeWraps(width, |xs|);
  }

  /** An int array of 2^29 elements asks for a buffer of 2^31 bytes, which
      wraps to a negative size; one of 2^30 elements wraps to 0 and overflows
      on its first put. Both are within the lengths the format allows. */
  lemma IntArrayOverflows(a: seq<int32>, b: seq<int32>)
    requires |a| == 0x2000_0000 && |b| == 0x4000_0000
    ensures EncodeArray(IntArrayVal(a)) == Err(NegativeCapacity(-0x8000_0000))
    ensures EncodeArray(IntArrayVal(b)) == Err(BufferOverflow)
  {
    Pow256Widths();
  }

  /** The compounds of a compound array, one after the other. */
  function EncodeDocs(ds: seq<Doc>): (r: Result<seq<byte>, WriteError>)
    decreases ds, 1
  {
    if ds == [] then Ok([]) else DocsTurn(ds)
  }

  /** The first compound of a non-empty list, then the rest. */
  function DocsTurn(ds: seq<Doc>): (r: Result<seq<byte>, WriteError>)
    requires ds != []
    decreases ds, 0
  {
    var first :- EncodeCompound(ds[0]);
    Prepend(first, EncodeDocs(ds[1..]))
  }

  /** `WriteMetadata`: the signature, then the version as a varint. */
  function Metadata(): (bs: seq<byte>)
    ensures |bs| == 17 && bs[..16] == GhdfConstants.SIGNATURE && bs[16] == 0x01
  {
    Pow256Widths();
    GhdfConstants.SIGNATURE + VarintOf(GhdfConstants.VERSION)
  }

  /** `Write(compound, stream)`: the header, then the root compound's body. */
  function Document(d: Doc): (r: Result<seq<byte>, WriteError>)
    ensures r.Ok? ==> |r.value| >= 17 && r.value[..17] == Metadata()
  {
    var body :- EncodeCompound(d);
    Ok(Metadata() + body)
  }

  lemma PrependStep(a: seq<byte>, b: seq<byte>, rest: Result<seq<byte>, WriteError>)
    ensures Prepend(a, Prepend(b, rest)) == Prepend(a + b, rest)
  {
    if rest.Ok? {
      assert a + (b + rest.value) == (a + b) + rest.value;
    }
  }

  /** One turn of the loop of `WriteCompound`: the entry at ids[i] either
      ends the whole encoding with its error or moves forward by its bytes. */
  lemma CompoundStep(d: Doc, ids: seq<int32>, i: nat, out: seq<byte>, e: Result<seq<byte>, WriteError>)
    requires i < |ids| && forall id | id in ids :: id in d.entries
    requires Prepend(out, EncodeEntries(d, ids[i..])) == EncodeCompound(d)
    requires e == if ids[i] == 0 then Err(InvalidId)
                  else EncodeEntry(ids[i], d.entries[ids[i]], InferType(d.entries[ids[i]]))
    ensures e.Err? ==> EncodeCompound(d) == Err(Caught(ids[i], e.error))
    ensures e.Ok? ==> Prepend(out + e.value, EncodeEntries(d, ids[i + 1..])) == EncodeCompound(d)
  {
    assert ids[i..][0] == ids[i] && ids[i..][1..] == ids[i + 1..];
    if e.Ok? {
      PrependStep(out, e.value, EncodeEntries(d, ids[i + 1..]));
    }
  }

  lemma CompoundDone(d: Doc, ids: seq<int32>, out: seq<byte>)
    requires forall id | id in ids :: id in d.entries
    requires Prepend(out, EncodeEntries(d, ids[|ids|..])) == EncodeCompound(d)
    ensures EncodeCompound(d) == Ok(out)
  {
    assert ids[|ids|..] == [];
    assert out + [] == out;
  }

  // ------------------------------------------------------------ methods

  /** `WriteMetadata`. */
  method WriteMetadata() returns (bs: seq<byte>)
    ensures bs == Metadata()
  {
    var version := Write7BitEncodedInt(GhdfConstants.VERSION);
    bs := GhdfConstants.SIGNATURE + version;
  }

  /** A length as the `long` that `Write7BitEncodedInt` receives. */
  method WriteLength(n: nat) returns (bs: seq<byte>)
    requires n <= MAX_LENGTH
    ensures bs == Varint(n)
  {
    Pow256Widths();
    bs := Write7BitEncodedInt(n);
  }

  /** `putShort`, `putInt`, `putLong`, `putFloat`, `putDouble` at the buffer's
      position `at`: the bytes of one word, nothing else changed. */
  method Put(buffer: array<byte>, at: nat, word: seq<byte>)
    requires at + |word| <= buffer.Length
    modifies buffer
    ensures buffer[..at + |word|] == old(buffer[..at]) + word
    ensures buffer[at + |word|..] == old(buffer[at + |word|..])
  {
    forall j | 0 <= j < |word| {
      buffer[at + j] := word[j];
    }
  }

  /** A buffer of `size` bytes after one put per element: element k occupies
      bytes width*k .. width*k + width - 1, and the put that would pass the end
      of the buffer throws `BufferOverflowException` instead. */
  method PutWords(xs: seq<int>, width: nat, size: nat) returns (r: Result<array<byte>, WriteError>)
    ensures r.Ok? <==> width * |xs| <= size
    ensures r.Err? ==> r.error == BufferOverflow
    ensures r.Ok? ==> fresh(r.value) && r.value.Length == size
    ensures r.Ok? ==> r.value[..width * |xs|] == EncodeWords(xs, width)
  {
    ghost var total := width * |xs|;
    var buffer := new byte[size];
    var i, at := 0, 0;
    while i < |xs|
      invariant 0 <= i <= |xs| && at == width * i && at <= size
      invariant buffer[..at] == EncodeWords(xs[..i], width)
    {
      SlotFits(i, |xs|, width);
      if at + width > size {
        assert total > size;
        return Err(BufferOverflow);
      }
      var word := EncodeFixed(xs[i], width);
      Put(buffer, at, word);
      EncodeWordsAppend(xs[..i], xs[i], width);
      assert xs[..i + 1] == xs[..i] + [xs[i]];
      i, at := i + 1, at + width;
    }
    assert at == total && xs[..|xs|] == xs;
    r := Ok(buffer);
  }

  lemma SlotFits(i: nat, n: nat, width: nat)
    requires i < n
    ensures width * i + width <= width * n && width * (i + 1) == width * i + width
  {
    assert width * (i + 1) == width * i + width;
    assert width * n == width * (i + 1) + width * (n - (i + 1));
  }

  /** `WriteShortArray`, `WriteIntArray`, `WriteLongArray`, `WriteFloatArray` and
      `WriteDoubleArray`: the count, then `GetByteBuffer(width * length)` filled
      and copied out whole, or the exception the buffer throws. */
  method WriteFixedArray(xs: seq<int>, width: nat) returns (r: Result<seq<byte>, WriteError>)
    requires |xs| <= MAX_LENGTH
    ensures r == EncodeWordArray(xs, width)
  {
    var count := WriteLength(|xs|);
    var size := BufferSize(width, |xs|);
    if size < 0 {
      return Err(NegativeCapacity(size));
    }
    var buffer := PutWords(xs, width, size);
    if buffer.Err? {
      BufferSizeWraps(width, |xs|);
      return Err(buffer.error);
    }
    BufferSizeWraps(width, |xs|);
    assert buffer.value[..] == buffer.value[..width * |xs|];
    r := Ok(count + buffer.value[..]);
  }

  /** `WriteByteArray`: the count, then the array's bytes as they are. */
  method WriteByteArray(a: seq<int8>) returns (bs: seq<byte>)
    requires |a| <= MAX_LENGTH
    ensures bs == Varint(|a|) + EncodeWords(a, 1)
  {
    var count := WriteLength(|a|);
    BytePatterns(a);
    bs := count + seq(|a|, k requires 0 <= k < |a| => ToUnsigned(a[k], 1));
  }

  /** A byte array's encoding is each byte's pattern. */
  lemma {:induction false} BytePatterns(a: seq<int8>)
    ensures EncodeWords(a, 1) == seq(|a|, k requires 0 <= k < |a| => ToUnsigned(a[k], 1))
  {
    if a != [] {
      BytePatterns(a[1..]);
    }
  }

  /** `WriteBooleanArray`: the count, then a byte array filled in a loop. */
  method WriteBooleanArray(a: seq<bool>) returns (bs: seq<byte>)
    requires |a| <= MAX_LENGTH
    ensures bs == Varint(|a|) + EncodeBooleans(a)
  {
    var count := WriteLength(|a|);
    var buffer := new byte[|a|];
    for i := 0 to |a|
      invariant forall k | 0 <= k < i :: buffer[k] == EncodeBoolean(a[k])[0]
    {
      buffer[i] := if a[i] then 1 else 0;
    }
    EncodeBooleansBytes(a);
    bs := count + buffer[..];
  }

  /** `WriteString`. */
  method WriteString(s: seq<byte>) returns (bs: seq<byte>)
    requires |s| <= MAX_LENGTH
    ensures bs == EncodeString(s)
  {
    var length := WriteLength(|s|);
    bs := length + s;
  }

  /** `WriteStringArray`: the count, then each string. */
  method WriteStringArray(a: seq<seq<byte>>) returns (bs: seq<byte>)
    requires |a| <= MAX_LENGTH && forall k | 0 <= k < |a| :: |a[k]| <= MAX_LENGTH
    ensures bs == Varint(|a|) + EncodeStrings(a)
  {
    var count := WriteLength(|a|);
    bs := count;
    for i := 0 to |a|
      invariant bs == count + EncodeStrings(a[..i])
    {
      var s := WriteString(a[i]);
      EncodeStringsAppend(a[..i], a[i]);
      assert a[..i + 1] == a[..i] + [a[i]];
      bs := bs + s;
    }
    assert a[..|a|] == a;
  }

  /** `WriteCompound`: the count, then one entry per id, under the entry's
      stored type; the catch reports the failing id of a `GHDFWriteException`
      and lets the buffer's unchecked exceptions through. */
  method WriteCompound(d: Doc) returns (r: Result<seq<byte>, WriteError>)
    requires SizedDoc(d)
    ensures r == EncodeCompound(d)
    decreases d, 2
  {
    var out := WriteLength(|d.entries|);
    var ids := SortedIds(d.entries.Keys);
    for i := 0 to |ids|
      invariant Prepend(out, EncodeEntries(d, ids[i..])) == EncodeCompound(d)
    {
      var id := ids[i];
      if id == 0 {
        CompoundStep(d, ids, i, out, Err(InvalidId));
        return Err(EntryFailed(0, InvalidId));
      }
      var v := d.entries[id];
      var entry := WriteEntry(id, v, InferType(v));
      CompoundStep(d, ids, i, out, entry);
      if entry.Err? {
        return Err(Caught(id, entry.error));
      }
      out := out + entry.value;
    }
    CompoundDone(d, ids, out);
    r := Ok(out);
  }

  /** `WriteEntry`: id 0 is refused before anything is written; the chosen
      writer's cast fails unless the value has the type's shape. */
  method WriteEntry(id: int32, v: Value, t: GHDFType) returns (r: Result<seq<byte>, WriteError>)
    requires SizedValue(v)
    ensures r == EncodeEntry(id, v, t)
    decreases v, 2
  {
    if id == 0 {
      return Err(InvalidId);
    }
    if SignedTwin(t) != InferType(v) {
      return Err(CastFailed(id, t));
    }
    EncodeEntryShape(id, v, t);
    var idBytes := Write7BitEncodedInt(id);
    var payload := WritePayload(v);
    if payload.Err? {
      return Err(payload.error);
    }
    r := Ok(idBytes + [GetByteData(t)] + payload.value);
  }

  /** An entry that passes both checks is its header before its payload. */
  lemma EncodeEntryShape(id: int32, v: Value, t: GHDFType)
    requires id != 0 && SignedTwin(t) == InferType(v)
    ensures EncodeEntry(id, v, t) == Prepend(VarintOf(id) + [GetByteData(t)], EncodeValue(v))
  {
  }

  /** The dispatch table's writers, chosen by the value's shape. */
  method WritePayload(v: Value) returns (r: Result<seq<byte>, WriteError>)
    requires SizedValue(v)
    ensures r == EncodeValue(v)
    decreases v, 1
  {
    if IsArrayShape(v) {
      r := WriteArrayPayload(v);
    } else {
      r := WriteScalarPayload(v);
    }
  }

  /** The table's writers of scalar kinds. */
  method WriteScalarPayload(v: Value) returns (r: Result<seq<byte>, WriteError>)
    requires SizedValue(v) && !IsArrayShape(v)
    ensures r == EncodeScalar(v)
    decreases v, 0
  {
    match v
    case ByteVal(x) => r := Ok(EncodeFixed(x, 1));
    case ShortVal(x) => r := Ok(EncodeFixed(x, 2));
    case IntVal(x) => r := Ok(EncodeFixed(x, 4));
    case LongVal(x) => r := Ok(EncodeFixed(x, 8));
    case FloatVal(x) => r := Ok(EncodeFixed(x, 4));
    case DoubleVal(x) => r := Ok(EncodeFixed(x, 8));
    case BoolVal(z) => r := Ok(EncodeBoolean(z));
    case StringVal(s) =>
      var bs := WriteString(s);
      r := Ok(bs);
    case CompoundVal(d) =>
      r := WriteCompound(d);
  }

  /** The table's writers of array kinds. */
  method WriteArrayPayload(v: Value) returns (r: Result<seq<byte>, WriteError>)
    requires SizedValue(v) && IsArrayShape(v)
    ensures r == EncodeArray(v)
    decreases v, 0
  {
    match v
    case ByteArrayVal(a) =>
      var bs := WriteByteArray(a);
      r := Ok(bs);
    case ShortArrayVal(a) =>
      r := WriteFixedArray(a, 2);
    case IntArrayVal(a) =>
      r := WriteFixedArray(a, 4);
    case LongArrayVal(a) =>
      r := WriteFixedArray(a, 8);
    case FloatArrayVal(a) =>
      r := WriteFixedArray(a, 4);
    case DoubleArrayVal(a) =>
      r := WriteFixedArray(a, 8);
    case BoolArrayVal(a) =>
      var bs := WriteBooleanArray(a);
      r := Ok(bs);
    case StringArrayVal(a) =>
      var bs := WriteStringArray(a);
      r := Ok(bs);
    case CompoundArrayVal(ds) =>
      r := WriteCompoundArray(ds);
  }

  /** `WriteCompoundArray`: the count, then each compound. */
  method WriteCompoundArray(ds: seq<Doc>) returns (r: Result<seq<byte>, WriteError>)
    requires |ds| <= MAX_LENGTH && forall k | 0 <= k < |ds| :: SizedDoc(ds[k])
    ensures r == Prepend(Varint(|ds|), EncodeDocs(ds))
    decreases ds, 1
  {
    var out := WriteLength(|ds|);
    for i := 0 to |ds|
      invariant Prepend(out, EncodeDocs(ds[i..])) == Prepend(Varint(|ds|), EncodeDocs(ds))
    {
      assert ds[i..][0] == ds[i] && ds[i..][1..] == ds[i + 1..];
      var body := WriteCompound(ds[i]);
      if body.Err? {
        assert EncodeDocs(ds[i..]) == Err(body.error);
        return Err(body.error);
      }
      assert EncodeDocs(ds[i..]) == Prepend(body.value, EncodeDocs(ds[i + 1..]));
      PrependStep(out, body.value, EncodeDocs(ds[i + 1..]));
      out := out + body.value;
    }
    assert ds[|ds|..] == [];
    assert Prepend(out, EncodeDocs(ds[|ds|..])) == Prepend(Varint(|ds|), EncodeDocs(ds));
    assert out + [] == out;
    r := Ok(out);
  }

  /** `Write(compound, stream)`: the header goes to the stream first; the body
      is built in a separate buffer and copied to the stream only when the whole
      compound was written, so a failure leaves just the header. */
  method Write(compound: GHDFCompound) returns (written: seq<byte>, r: Outcome<WriteError>)
    requires compound.Valid() && SizedDoc(compound.Snapshot())
    ensures r.Pass? <==> Document(compound.Snapshot()).Ok?
    ensures r.Pass? ==> written == Document(compound.Snapshot()).value
    ensures r.Fail? ==> written == Metadata() && Document(compound.Snapshot()) == Err(r.error)
  {
    written := WriteMetadata();
    var body := WriteCompound(compound.Snapshot());
    if body.Err? {
      return written, Fail(body.error);
    }
    written := written + body.value;
    r := Pass;
  }

  // ------------------------------------------------------------- results

  /** The writer fails exactly when some compound, at some depth, holds id 0
      or an array whose buffer size overflows an `int`: every stored type
      matches its value, so no cast can fail. */
  lemma {:induction false} EncodeCompoundSucceeds(d: Doc)
    ensures EncodeCompound(d).Ok? <==> NoZeroIds(d) && BuffersFit(d)
    decreases d, 2
  {
    var ids := SortedIds(d.entries.Keys);
    EncodeEntriesSucceeds(d, ids);
  }

  lemma {:induction false} EncodeEntriesSucceeds(d: Doc, ids: seq<int32>)
    requires forall id | id in ids :: id in d.entries
    ensures EncodeEntries(d, ids).Ok? <==>
            forall id | id in ids :: id != 0 && ValueNoZeroIds(d.entries[id]) && ValueBuffersFit(d.entries[id])
    decreases d, 1, |ids|
  {
    if ids != [] {
      var id := ids[0];
      assert forall x | x in ids :: x == id || x in ids[1..];
      if id != 0 {
        var v := d.entries[id];
        EncodeEntryOk(id, v);
        EncodeValueSucceeds(v);
        EncodeEntriesSucceeds(d, ids[1..]);
        assert EncodeEntries(d, ids).Ok? <==> EncodeEntry(id, v, InferType(v)).Ok? && EncodeEntries(d, ids[1..]).Ok?;
      } else {
        assert ids[0] in ids && EncodeEntries(d, ids).Err?;
      }
    }
  }

  /** Under the inferred type, an entry with a non-zero id fails only when
      its payload does. */
  lemma EncodeEntryOk(id: int32, v: Value)
    requires id != 0
    ensures EncodeEntry(id, v, InferType(v)).Ok? <==> EncodeValue(v).Ok?
  {
    SignedTwinKind(InferType(v));
  }

  lemma {:induction false} EncodeValueSucceeds(v: Value)
    ensures EncodeValue(v).Ok? <==> ValueNoZeroIds(v) && ValueBuffersFit(v)
    decreases v, 0
  {
    match v
    case CompoundVal(d) => EncodeCompoundSucceeds(d);
    case CompoundArrayVal(ds) => EncodeDocsSucceeds(ds);
    case _ => FlatValueSucceeds(v);
  }

  /** A value holding no compound fails only by an array buffer overflow. */
  lemma FlatValueSucceeds(v: Value)
    requires !v.CompoundVal? && !v.CompoundArrayVal?
    ensures EncodeValue(v).Ok? <==> ValueBuffersFit(v)
  {
    match v
    case ShortArrayVal(a) => WordArrayOk(a, 2);
    case IntArrayVal(a) => WordArrayOk(a, 4);
    case LongArrayVal(a) => WordArrayOk(a, 8);
    case FloatArrayVal(a) => WordArrayOk(a, 4);
    case DoubleArrayVal(a) => WordArrayOk(a, 8);
    case _ =>
  }

  lemma {:induction false} EncodeDocsSucceeds(ds: seq<Doc>)
    ensures EncodeDocs(ds).Ok? <==> forall k | 0 <= k < |ds| :: NoZeroIds(ds[k]) && BuffersFit(ds[k])
    decreases ds, 1
  {
    if ds != [] {
      EncodeCompoundSucceeds(ds[0]);
      EncodeDocsSucceeds(ds[1..]);
      assert forall k | 1 <= k < |ds| :: ds[k] == ds[1..][k - 1];
    }
  }

  // --------------------------------------------------------- file names

  function LastIndexOf(s: string, c: char): (i: int)
    ensures -1 <= i < |s|
    ensures i == -1 <==> c !in s
    ensures i >= 0 ==> s[i] == c && c !in s[i + 1..]
  {
    if s == [] then -1
    else if s[|s| - 1] == c then |s| - 1
    else
      assert s == s[..|s| - 1] + [s[|s| - 1]];
      LastIndexOf(s[..|s| - 1], c)
  }

  predicate EndsWith(s: string, suffix: string) {
    |suffix| <= |s| && s[|s| - |suffix|..] == suffix
  }

  /** `ChangeExtensionToGHDF`: keeps a path that already ends in ".ghdf",
      otherwise replaces everything from the last '.' on by ".ghdf", or appends
      ".ghdf" when there is no '.'. */
  function ChangeExtensionToGHDF(path: string): (r: string)
    ensures EndsWith(r, GhdfConstants.EXTENSION)
    ensures EndsWith(path, GhdfConstants.EXTENSION) ==> r == path
    ensures '.' !in path ==> r == path + GhdfConstants.EXTENSION
    ensures '.' in path && !EndsWith(path, GhdfConstants.EXTENSION) ==>
      var stem := r[..|r| - |GhdfConstants.EXTENSION|];
      && stem < path && path[|stem|] == '.' && '.' !in path[|stem| + 1..]
  {
    var index := LastIndexOf(path, '.');
    assert EndsWith(path, GhdfConstants.EXTENSION) ==> path[|path| - 5] == '.' by {
      if EndsWith(path, GhdfConstants.EXTENSION) {
        assert path[|path| - 5..][0] == '.';
      }
    }
    if index != -1 then
      if EndsWith(path, GhdfConstants.EXTENSION) then path
      else path[..index] + GhdfConstants.EXTENSION
    else path + GhdfConstants.EXTENSION
  }

  /** Normalising twice is normalising once. */
  lemma ChangeExtensionIdempotent(path: string)
    ensures ChangeExtensionToGHDF(ChangeExtensionToGHDF(path)) == ChangeExtensionToGHDF(path)
  {
  }
}
