/** The reader looks at no byte past the point where a read stops. Two inputs
    that agree up to that point are read alike: a parse that succeeds on one
    succeeds the same on any other that reaches that point and agrees with it
    below it, and it ends in the buffer underflow on one that ends first. */
module Truncation {
  import opened Wrappers
  import opened Bytes
  import opened TypeTags
  import opened Compounds
  import opened ReaderV1

  function Min(x: nat, y: nat): nat {
    if x <= y then x else y
  }

  /** a and b hold the same bytes below m. */
  predicate Agree(a: seq<byte>, b: seq<byte>, m: nat) {
    m <= |a| && m <= |b| && a[..m] == b[..m]
  }

  /** The successful parse r of a, and b agreeing with a below r's end, or
      up to b's own end when that comes first. */
  predicate Covers<T>(a: seq<byte>, b: seq<byte>, r: Result<Parsed<T>, ReadError>) {
    r.Ok? && Agree(a, b, Min(|b|, r.value.next))
  }

  /** What the parse r of a becomes on such a b: the same result when b
      reaches its end, the underflow when b ends first. */
  function Seen<T>(r: Result<Parsed<T>, ReadError>, b: seq<byte>): Result<Parsed<T>, ReadError>
    requires r.Ok?
  {
    if r.value.next <= |b| then r else Err(Incomplete)
  }

  lemma AgreeLess(a: seq<byte>, b: seq<byte>, m: nat, k: nat)
    requires Agree(a, b, m) && k <= m
    ensures Agree(a, b, k)
  {
    assert a[..k] == a[..m][..k];
    assert b[..k] == b[..m][..k];
  }

  lemma AgreeSlice(a: seq<byte>, b: seq<byte>, m: nat, i: nat, j: nat)
    requires Agree(a, b, m) && i <= j <= m
    ensures a[i..j] == b[i..j]
  {
    assert a[i..j] == a[..m][i..j];
    assert b[i..j] == b[..m][i..j];
  }

  lemma AgreeAt(a: seq<byte>, b: seq<byte>, m: nat, i: nat)
    requires Agree(a, b, m) && i < m
    ensures a[i] == b[i]
  {
    assert a[i] == a[..m][i];
  }

  /** The part of a parse that starts the input of another: its agreement
      follows from the agreement for the whole. */
  lemma CoversFirst<S, T>(a: seq<byte>, b: seq<byte>, first: Result<Parsed<S>, ReadError>, whole: Result<Parsed<T>, ReadError>)
    requires Covers(a, b, whole) && first.Ok? && first.value.next <= whole.value.next
    ensures Covers(a, b, first)
  {
    AgreeLess(a, b, Min(|b|, whole.value.next), Min(|b|, first.value.next));
  }

  // --------------------------------------------------------------- leaves

  lemma GetByteFrame(a: seq<byte>, b: seq<byte>, pos: nat)
    requires pos <= |a| && pos <= |b| && Covers(a, b, GetByte(a, pos))
    ensures GetByte(b, pos) == Seen(GetByte(a, pos), b)
  {
    if pos < |b| {
      AgreeAt(a, b, pos + 1, pos);
    }
  }

  lemma GetBytesFrame(a: seq<byte>, b: seq<byte>, pos: nat, n: nat)
    requires pos <= |a| && pos <= |b| && Covers(a, b, GetBytes(a, pos, n))
    ensures GetBytes(b, pos, n) == Seen(GetBytes(a, pos, n), b)
  {
    if pos + n <= |b| {
      AgreeSlice(a, b, pos + n, pos, pos + n);
    }
  }

  lemma GetScalarFrame(a: seq<byte>, b: seq<byte>, pos: nat, width: nat, signed: bool)
    requires pos <= |a| && pos <= |b| && 1 <= width && Covers(a, b, GetScalar(a, pos, width, signed))
    ensures GetScalar(b, pos, width, signed) == Seen(GetScalar(a, pos, width, signed), b)
  {
    if pos + width <= |b| {
      AgreeSlice(a, b, pos + width, pos, pos + width);
    }
  }

  lemma {:induction false} VarintEndFrame(a: seq<byte>, b: seq<byte>, pos: nat)
    requires pos <= |a| && pos <= |b| && VarintEnd(a, pos).Ok?
    requires Agree(a, b, Min(|b|, VarintEnd(a, pos).value))
    ensures VarintEnd(b, pos) == if VarintEnd(a, pos).value <= |b| then VarintEnd(a, pos) else Err(Incomplete)
    decreases |a| - pos
  {
    if pos < |b| {
      AgreeAt(a, b, Min(|b|, VarintEnd(a, pos).value), pos);
      if a[pos] >= 0x80 {
        VarintEndFrame(a, b, pos + 1);
      }
    }
  }

  lemma VarintFrame(a: seq<byte>, b: seq<byte>, pos: nat)
    requires pos <= |a| && pos <= |b| && Covers(a, b, ParseVarint(a, pos))
    ensures ParseVarint(b, pos) == Seen(ParseVarint(a, pos), b)
  {
    var next := VarintEnd(a, pos).value;
    VarintEndFrame(a, b, pos);
    if next <= |b| {
      AgreeSlice(a, b, next, pos, next);
    }
  }

  lemma BooleanFrame(a: seq<byte>, b: seq<byte>, pos: nat)
    requires pos <= |a| && pos <= |b| && Covers(a, b, ParseBoolean(a, pos))
    ensures ParseBoolean(b, pos) == Seen(ParseBoolean(a, pos), b)
  {
    if pos < |b| {
      AgreeAt(a, b, pos + 1, pos);
    }
  }

  lemma StringFrame(a: seq<byte>, b: seq<byte>, pos: nat)
    requires pos <= |a| && pos <= |b| && Covers(a, b, ParseString(a, pos))
    ensures ParseString(b, pos) == Seen(ParseString(a, pos), b)
  {
    var length := ParseVarint(a, pos);
    CoversFirst(a, b, length, ParseString(a, pos));
    VarintFrame(a, b, pos);
    if length.value.next <= |b| {
      GetBytesFrame(a, b, length.value.next, length.value.value);
    }
  }

  lemma ArrayLengthFrame(a: seq<byte>, b: seq<byte>, pos: nat)
    requires pos <= |a| && pos <= |b| && Covers(a, b, ParseArrayLength(a, pos))
    ensures ParseArrayLength(b, pos) == Seen(ParseArrayLength(a, pos), b)
  {
    var length := ParseVarint(a, pos);
    CoversFirst(a, b, length, ParseArrayLength(a, pos));
    VarintFrame(a, b, pos);
  }

  // ---------------------------------------------------------------- loops

  lemma {:induction false} WordsFrame(a: seq<byte>, b: seq<byte>, pos: nat, n: nat, width: nat, signed: bool, acc: seq<int>)
    requires pos <= |a| && pos <= |b| && 1 <= width && Covers(a, b, ParseWords(a, pos, n, width, signed, acc))
    ensures ParseWords(b, pos, n, width, signed, acc) == Seen(ParseWords(a, pos, n, width, signed, acc), b)
    decreases n
  {
    if n > 0 {
      var x := GetScalar(a, pos, width, signed);
      WordsStep(a, pos, n, width, signed, acc, x);
      CoversFirst(a, b, x, ParseWords(a, pos, n, width, signed, acc));
      GetScalarFrame(a, b, pos, width, signed);
      WordsStep(b, pos, n, width, signed, acc, GetScalar(b, pos, width, signed));
      if x.value.next <= |b| {
        WordsFrame(a, b, x.value.next, n - 1, width, signed, acc + [x.value.value]);
      }
    }
  }

  lemma {:induction false} BooleansFrame(a: seq<byte>, b: seq<byte>, pos: nat, n: nat, acc: seq<bool>)
    requires pos <= |a| && pos <= |b| && Covers(a, b, ParseBooleans(a, pos, n, acc))
    ensures ParseBooleans(b, pos, n, acc) == Seen(ParseBooleans(a, pos, n, acc), b)
    decreases n
  {
    if n > 0 {
      var z := ParseBoolean(a, pos);
      BooleansStep(a, pos, n, acc, z);
      CoversFirst(a, b, z, ParseBooleans(a, pos, n, acc));
      BooleanFrame(a, b, pos);
      BooleansStep(b, pos, n, acc, ParseBoolean(b, pos));
      if z.value.next <= |b| {
        BooleansFrame(a, b, z.value.next, n - 1, acc + [z.value.value]);
      }
    }
  }

  lemma {:induction false} StringsFrame(a: seq<byte>, b: seq<byte>, pos: nat, n: nat, acc: seq<seq<byte>>)
    requires pos <= |a| && pos <= |b| && Covers(a, b, ParseStrings(a, pos, n, acc))
    ensures ParseStrings(b, pos, n, acc) == Seen(ParseStrings(a, pos, n, acc), b)
    decreases n
  {
    if n > 0 {
      var s := ParseString(a, pos);
      StringsStep(a, pos, n, acc, s);
      CoversFirst(a, b, s, ParseStrings(a, pos, n, acc));
      StringFrame(a, b, pos);
      StringsStep(b, pos, n, acc, ParseString(b, pos));
      if s.value.next <= |b| {
        StringsFrame(a, b, s.value.next, n - 1, acc + [s.value.value]);
      }
    }
  }

  // -------------------------------------------------------- scalar values

  lemma Int8Frame(a: seq<byte>, b: seq<byte>, pos: nat)
    requires pos <= |a| && pos <= |b| && Covers(a, b, ParseInt8(a, pos))
    ensures ParseInt8(b, pos) == Seen(ParseInt8(a, pos), b)
  {
    GetScalarFrame(a, b, pos, 1, true);
  }

  lemma Int16Frame(a: seq<byte>, b: seq<byte>, pos: nat)
    requires pos <= |a| && pos <= |b| && Covers(a, b, ParseInt16(a, pos))
    ensures ParseInt16(b, pos) == Seen(ParseInt16(a, pos), b)
  {
    GetScalarFrame(a, b, pos, 2, true);
  }

  lemma Int32Frame(a: seq<byte>, b: seq<byte>, pos: nat)
    requires pos <= |a| && pos <= |b| && Covers(a, b, ParseInt32(a, pos))
    ensures ParseInt32(b, pos) == Seen(ParseInt32(a, pos), b)
  {
    GetScalarFrame(a, b, pos, 4, true);
  }

  lemma Int64Frame(a: seq<byte>, b: seq<byte>, pos: nat)
    requires pos <= |a| && pos <= |b| && Covers(a, b, ParseInt64(a, pos))
    ensures ParseInt64(b, pos) == Seen(ParseInt64(a, pos), b)
  {
    GetScalarFrame(a, b, pos, 8, true);
  }

  lemma FloatFrame(a: seq<byte>, b: seq<byte>, pos: nat)
    requires pos <= |a| && pos <= |b| && Covers(a, b, ParseFloat(a, pos))
    ensures ParseFloat(b, pos) == Seen(ParseFloat(a, pos), b)
  {
    GetScalarFrame(a, b, pos, 4, false);
  }

  lemma DoubleFrame(a: seq<byte>, b: seq<byte>, pos: nat)
    requires pos <= |a| && pos <= |b| && Covers(a, b, ParseDouble(a, pos))
    ensures ParseDouble(b, pos) == Seen(ParseDouble(a, pos), b)
  {
    GetScalarFrame(a, b, pos, 8, false);
  }

  lemma BooleanValueFrame(a: seq<byte>, b: seq<byte>, pos: nat)
    requires pos <= |a| && pos <= |b| && Covers(a, b, ParseBooleanValue(a, pos))
    ensures ParseBooleanValue(b, pos) == Seen(ParseBooleanValue(a, pos), b)
  {
    BooleanFrame(a, b, pos);
  }

  lemma StringValueFrame(a: seq<byte>, b: seq<byte>, pos: nat)
    requires pos <= |a| && pos <= |b| && Covers(a, b, ParseStringValue(a, pos))
    ensures ParseStringValue(b, pos) == Seen(ParseStringValue(a, pos), b)
  {
    StringFrame(a, b, pos);
  }

  // --------------------------------------------------------- array values

  lemma ByteArrayFrame(a: seq<byte>, b: seq<byte>, pos: nat)
    requires pos <= |a| && pos <= |b| && Covers(a, b, ParseByteArray(a, pos))
    ensures ParseByteArray(b, pos) == Seen(ParseByteArray(a, pos), b)
  {
    var n := ParseArrayLength(a, pos);
    CoversFirst(a, b, n, ParseByteArray(a, pos));
    ArrayLengthFrame(a, b, pos);
    if n.value.next <= |b| {
      GetBytesFrame(a, b, n.value.next, n.value.value);
    }
  }

  /** The fixed-width arrays: a length, then the words. */
  lemma WordArrayFrame(a: seq<byte>, b: seq<byte>, pos: nat, width: nat, signed: bool, whole: Result<Parsed<Value>, ReadError>)
    requires pos <= |a| && pos <= |b| && 1 <= width && Covers(a, b, whole)
    requires ParseArrayLength(a, pos).Ok?
    requires var n := ParseArrayLength(a, pos).value;
      && ParseWords(a, n.next, n.value, width, signed, []).Ok?
      && ParseWords(a, n.next, n.value, width, signed, []).value.next == whole.value.next
    ensures ParseArrayLength(b, pos) == Seen(ParseArrayLength(a, pos), b)
    ensures var n := ParseArrayLength(a, pos).value;
      n.next <= |b| ==> ParseWords(b, n.next, n.value, width, signed, []) == Seen(ParseWords(a, n.next, n.value, width, signed, []), b)
  {
    var n := ParseArrayLength(a, pos);
    CoversFirst(a, b, n, whole);
    ArrayLengthFrame(a, b, pos);
    if n.value.next <= |b| {
      WordsFrame(a, b, n.value.next, n.value.value, width, signed, []);
    }
  }

  lemma ShortArrayFrame(a: seq<byte>, b: seq<byte>, pos: nat)
    requires pos <= |a| && pos <= |b| && Covers(a, b, ParseShortArray(a, pos))
    ensures ParseShortArray(b, pos) == Seen(ParseShortArray(a, pos), b)
  {
    WordArrayFrame(a, b, pos, 2, true, ParseShortArray(a, pos));
  }

  lemma IntArrayFrame(a: seq<byte>, b: seq<byte>, pos: nat)
    requires pos <= |a| && pos <= |b| && Covers(a, b, ParseIntArray(a, pos))
    ensures ParseIntArray(b, pos) == Seen(ParseIntArray(a, pos), b)
  {
    WordArrayFrame(a, b, pos, 4, true, ParseIntArray(a, pos));
  }

  lemma LongArrayFrame(a: seq<byte>, b: seq<byte>, pos: nat)
    requires pos <= |a| && pos <= |b| && Covers(a, b, ParseLongArray(a, pos))
    ensures ParseLongArray(b, pos) == Seen(ParseLongArray(a, pos), b)
  {
    WordArrayFrame(a, b, pos, 8, true, ParseLongArray(a, pos));
  }

  lemma FloatArrayFrame(a: seq<byte>, b: seq<byte>, pos: nat)
    requires pos <= |a| && pos <= |b| && Covers(a, b, ParseFloatArray(a, pos))
    ensures ParseFloatArray(b, pos) == Seen(ParseFloatArray(a, pos), b)
  {
    WordArrayFrame(a, b, pos, 4, false, ParseFloatArray(a, pos));
  }

  lemma DoubleArrayFrame(a: seq<byte>, b: seq<byte>, pos: nat)
    requires pos <= |a| && pos <= |b| && Covers(a, b, ParseDoubleArray(a, pos))
    ensures ParseDoubleArray(b, pos) == Seen(ParseDoubleArray(a, pos), b)
  {
    WordArrayFrame(a, b, pos, 8, false, ParseDoubleArray(a, pos));
  }

  lemma BooleanArrayFrame(a: seq<byte>, b: seq<byte>, pos: nat)
    requires pos <= |a| && pos <= |b| && Covers(a, b, ParseBooleanArray(a, pos))
    ensures ParseBooleanArray(b, pos) == Seen(ParseBooleanArray(a, pos), b)
  {
    var n := ParseArrayLength(a, pos);
    CoversFirst(a, b, n, ParseBooleanArray(a, pos));
    ArrayLengthFrame(a, b, pos);
    if n.value.next <= |b| {
      BooleansFrame(a, b, n.value.next, n.value.value, []);
    }
  }

  lemma StringArrayFrame(a: seq<byte>, b: seq<byte>, pos: nat)
    requires pos <= |a| && pos <= |b| && Covers(a, b, ParseStringArray(a, pos))
    ensures ParseStringArray(b, pos) == Seen(ParseStringArray(a, pos), b)
  {
    var n := ParseArrayLength(a, pos);
    CoversFirst(a, b, n, ParseStringArray(a, pos));
    ArrayLengthFrame(a, b, pos);
    if n.value.next <= |b| {
      StringsFrame(a, b, n.value.next, n.value.value, []);
    }
  }

  // ------------------------------------------------- compounds and entries

  lemma {:induction false} CompoundFrame(a: seq<byte>, b: seq<byte>, pos: nat)
    requires pos <= |a| && pos <= |b| && Covers(a, b, ParseCompound(a, pos))
    ensures ParseCompound(b, pos) == Seen(ParseCompound(a, pos), b)
    decreases |a| - pos, 0
  {
    var count := ParseVarint(a, pos);
    CoversFirst(a, b, count, ParseCompound(a, pos));
    VarintFrame(a, b, pos);
    if count.value.next <= |b| {
      var entries := ParseEntries(a, count.value.next, count.value.value, map[]);
      CoversFirst(a, b, entries, ParseCompound(a, pos));
      EntriesFrame(a, b, count.value.next, count.value.value, map[]);
    }
  }

  lemma {:induction false} EntriesFrame(a: seq<byte>, b: seq<byte>, pos: nat, n: int, acc: map<int32, Value>)
    requires pos <= |a| && pos <= |b| && 0 !in acc && Covers(a, b, ParseEntries(a, pos, n, acc))
    ensures ParseEntries(b, pos, n, acc) == Seen(ParseEntries(a, pos, n, acc), b)
    decreases |a| - pos, 2
  {
    if n > 0 {
      var entry := ParseEntry(a, pos);
      EntriesStep(a, pos, n, acc, entry);
      CoversFirst(a, b, entry, ParseEntries(a, pos, n, acc));
      EntryFrame(a, b, pos);
      EntriesStep(b, pos, n, acc, ParseEntry(b, pos));
      if entry.value.next <= |b| {
        EntriesFrame(a, b, entry.value.next, n - 1, acc[entry.value.value.0 := entry.value.value.1]);
      }
    }
  }

  lemma {:induction false} EntryFrame(a: seq<byte>, b: seq<byte>, pos: nat)
    requires pos <= |a| && pos <= |b| && Covers(a, b, ParseEntry(a, pos))
    ensures ParseEntry(b, pos) == Seen(ParseEntry(a, pos), b)
    decreases |a| - pos, 1
  {
    var id := ParseVarint(a, pos);
    CoversFirst(a, b, id, ParseEntry(a, pos));
    VarintFrame(a, b, pos);
    if id.value.next <= |b| {
      var tag := GetByte(a, id.value.next);
      CoversFirst(a, b, tag, ParseEntry(a, pos));
      GetByteFrame(a, b, id.value.next);
      if tag.value.next <= |b| {
        var t := ByteToEnum(tag.value.value).value;
        CoversFirst(a, b, ParsePayload(a, tag.value.next, t), ParseEntry(a, pos));
        PayloadFrame(a, b, tag.value.next, t);
      }
    }
  }

  lemma {:induction false} PayloadFrame(a: seq<byte>, b: seq<byte>, pos: nat, t: GHDFType)
    requires pos <= |a| && pos <= |b| && Covers(a, b, ParsePayload(a, pos, t))
    ensures ParsePayload(b, pos, t) == Seen(ParsePayload(a, pos, t), b)
    decreases |a| - pos, 3
  {
    if IsArray(t) {
      ArrayPayloadFrame(a, b, pos, t);
    } else {
      ScalarPayloadFrame(a, b, pos, t);
    }
  }

  lemma {:induction false} ScalarPayloadFrame(a: seq<byte>, b: seq<byte>, pos: nat, t: GHDFType)
    requires pos <= |a| && pos <= |b| && !IsArray(t) && Covers(a, b, ParseScalarPayload(a, pos, t))
    ensures ParseScalarPayload(b, pos, t) == Seen(ParseScalarPayload(a, pos, t), b)
    decreases |a| - pos, 2
  {
    match t
    case Int8 | UInt8 => Int8Frame(a, b, pos);
    case Int16 | UInt16 => Int16Frame(a, b, pos);
    case Int32 | UInt32 => Int32Frame(a, b, pos);
    case Int64 | UInt64 => Int64Frame(a, b, pos);
    case Float => FloatFrame(a, b, pos);
    case Double => DoubleFrame(a, b, pos);
    case Boolean => BooleanValueFrame(a, b, pos);
    case String => StringValueFrame(a, b, pos);
    case Compound => CompoundValueFrame(a, b, pos);
  }

  lemma {:induction false} ArrayPayloadFrame(a: seq<byte>, b: seq<byte>, pos: nat, t: GHDFType)
    requires pos <= |a| && pos <= |b| && IsArray(t) && Covers(a, b, ParseArrayPayload(a, pos, t))
    ensures ParseArrayPayload(b, pos, t) == Seen(ParseArrayPayload(a, pos, t), b)
    decreases |a| - pos, 2
  {
    match t
    case Int8Array | UInt8Array => ByteArrayFrame(a, b, pos);
    case Int16Array | UInt16Array => ShortArrayFrame(a, b, pos);
    case Int32Array | UInt32Array => IntArrayFrame(a, b, pos);
    case Int64Array | UInt64Array => LongArrayFrame(a, b, pos);
    case FloatArray => FloatArrayFrame(a, b, pos);
    case DoubleArray => DoubleArrayFrame(a, b, pos);
    case BooleanArray => BooleanArrayFrame(a, b, pos);
    case StringArray => StringArrayFrame(a, b, pos);
    case CompoundArray => CompoundArrayFrame(a, b, pos);
  }

  lemma {:induction false} CompoundValueFrame(a: seq<byte>, b: seq<byte>, pos: nat)
    requires pos <= |a| && pos <= |b| && Covers(a, b, ParseCompoundValue(a, pos))
    ensures ParseCompoundValue(b, pos) == Seen(ParseCompoundValue(a, pos), b)
    decreases |a| - pos, 1
  {
    CoversFirst(a, b, ParseCompound(a, pos), ParseCompoundValue(a, pos));
    CompoundFrame(a, b, pos);
  }

  lemma {:induction false} CompoundArrayFrame(a: seq<byte>, b: seq<byte>, pos: nat)
    requires pos <= |a| && pos <= |b| && Covers(a, b, ParseCompoundArray(a, pos))
    ensures ParseCompoundArray(b, pos) == Seen(ParseCompoundArray(a, pos), b)
    decreases |a| - pos, 1
  {
    var n := ParseArrayLength(a, pos);
    CoversFirst(a, b, n, ParseCompoundArray(a, pos));
    ArrayLengthFrame(a, b, pos);
    if n.value.next <= |b| {
      var ds := ParseDocs(a, n.value.next, n.value.value, []);
      CoversFirst(a, b, ds, ParseCompoundArray(a, pos));
      DocsFrame(a, b, n.value.next, n.value.value, []);
    }
  }

  lemma {:induction false} DocsFrame(a: seq<byte>, b: seq<byte>, pos: nat, n: nat, acc: seq<Doc>)
    requires pos <= |a| && pos <= |b| && Covers(a, b, ParseDocs(a, pos, n, acc))
    ensures ParseDocs(b, pos, n, acc) == Seen(ParseDocs(a, pos, n, acc), b)
    decreases |a| - pos, 1, n
  {
    if n > 0 {
      var d := ParseCompound(a, pos);
      DocsStep(a, pos, n, acc, d);
      CoversFirst(a, b, d, ParseDocs(a, pos, n, acc));
      CompoundFrame(a, b, pos);
      DocsStep(b, pos, n, acc, ParseCompound(b, pos));
      if d.value.next <= |b| {
        DocsFrame(a, b, d.value.next, n - 1, acc + [d.value.value]);
      }
    }
  }

  // ------------------------------------------------------------ documents

  lemma SignatureFrame(a: seq<byte>, b: seq<byte>, pos: nat)
    requires pos <= |a| && pos <= |b| && Covers(a, b, ParseSignature(a, pos))
    ensures ParseSignature(b, pos) == Seen(ParseSignature(a, pos), b)
  {
    GetBytesFrame(a, b, pos, 16);
  }

  lemma VersionFrame(a: seq<byte>, b: seq<byte>, pos: nat)
    requires pos <= |a| && pos <= |b| && Covers(a, b, ParseVersion(a, pos))
    ensures ParseVersion(b, pos) == Seen(ParseVersion(a, pos), b)
  {
    GetScalarFrame(a, b, pos, 4, true);
  }

  /** An accepted input read alongside b, which agrees with it below
      `Min(|b|, |data|)`: each of signature, version and root compound reads
      on b as on data, or underflows where b ends first. */
  lemma DocumentFrame(data: seq<byte>, b: seq<byte>)
    requires ParseDocument(data).Ok? && Agree(data, b, Min(|b|, |data|))
    ensures |b| < 16 ==> ParseSignature(b, 0) == Err(Incomplete)
    ensures 16 <= |b| ==> ParseSignature(b, 0) == Ok(Parsed((), 16))
    ensures 16 <= |b| < 20 ==> ParseVersion(b, 16) == Err(Incomplete)
    ensures 20 <= |b| ==> ParseVersion(b, 16) == Ok(Parsed((), 20))
    ensures 20 <= |b| ==> ParseCompound(b, 20) == Seen(ParseCompound(data, 20), b)
  {
    var signature := ParseSignature(data, 0);
    var version := ParseVersion(data, 16);
    var body := ParseCompound(data, 20);
    AgreeLess(data, b, Min(|b|, |data|), Min(|b|, 16));
    SignatureFrame(data, b, 0);
    if 16 <= |b| {
      AgreeLess(data, b, Min(|b|, |data|), Min(|b|, 20));
      VersionFrame(data, b, 16);
      if 20 <= |b| {
        CompoundFrame(data, b, 20);
      }
    }
  }

  /** Every proper prefix of an input the reader accepts fails, and always
      with the underflow: the reader stops on the first read past the end. */
  lemma PrefixIncomplete(data: seq<byte>, p: nat)
    requires ParseDocument(data).Ok? && p < |data|
    ensures ParseDocument(data[..p]) == Err(Incomplete)
  {
    var b := data[..p];
    assert b[..p] == data[..p];
    DocumentFrame(data, b);
  }

  /** Bytes after an input the reader accepts make it refuse the whole as
      trailing data. */
  lemma TrailingRejected(data: seq<byte>, extra: seq<byte>)
    requires ParseDocument(data).Ok? && extra != []
    ensures ParseDocument(data + extra) == Err(TrailingData)
  {
    var b := data + extra;
    assert b[..|data|] == data[..|data|];
    DocumentFrame(data, b);
  }
}
