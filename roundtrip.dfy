/** What the reader makes of the writer's bytes: the varint read back, every
    payload read back by the reader its tag selects, and a compound body read
    back as the same map. The header is where the two sides disagree; that, and
    the varint of a negative id, are stated in module Findings beside the
    corrected encodings. */
module RoundTrip {
  import opened Wrappers
  import opened Bytes
  import opened TypeTags
  import opened Compounds
  import W = WriterV1
  import opened ReaderV1
  import GhdfConstants

  /** bs appears in data at pos, byte by byte. Stated recursively so that a
      hypothesis At(data, pos, bs) speaks of its first byte only; AtSlice
      gives the slice view where a reader takes a slice. */
  predicate At(data: seq<byte>, pos: nat, bs: seq<byte>)
    decreases |bs|
  {
    pos + |bs| <= |data| && (bs != [] ==> data[pos] == bs[0] && At(data, pos + 1, bs[1..]))
  }

  lemma {:induction false} AtSlice(data: seq<byte>, pos: nat, bs: seq<byte>)
    requires At(data, pos, bs)
    ensures pos + |bs| <= |data| && data[pos..pos + |bs|] == bs
    decreases |bs|
  {
    if bs != [] {
      AtSlice(data, pos + 1, bs[1..]);
      assert data[pos..pos + |bs|] == [data[pos]] + data[pos + 1..pos + |bs|];
    }
  }

  lemma {:induction false} SliceAt(data: seq<byte>, pos: nat, bs: seq<byte>)
    requires pos + |bs| <= |data| && data[pos..pos + |bs|] == bs
    ensures At(data, pos, bs)
    decreases |bs|
  {
    if bs != [] {
      assert data[pos] == bs[0];
      assert data[pos + 1..pos + |bs|] == bs[1..];
      SliceAt(data, pos + 1, bs[1..]);
    }
  }

  lemma {:induction false} AtSplit(data: seq<byte>, pos: nat, a: seq<byte>, b: seq<byte>)
    requires At(data, pos, a + b)
    ensures At(data, pos, a) && At(data, pos + |a|, b)
  {
    AtSlice(data, pos, a + b);
    assert data[pos..pos + |a|] == (a + b)[..|a|];
    assert data[pos + |a|..pos + |a| + |b|] == (a + b)[|a|..];
    SliceAt(data, pos, a);
    SliceAt(data, pos + |a|, b);
  }

  /** AtSplit for bytes known to be a concatenation. */
  lemma PartsAt(data: seq<byte>, pos: nat, bs: seq<byte>, a: seq<byte>, b: seq<byte>)
    requires bs == a + b && At(data, pos, bs)
    ensures At(data, pos, a) && At(data, pos + |a|, b)
  {
    AtSplit(data, pos, a, b);
  }

  lemma {:induction false} AtFirst(data: seq<byte>, pos: nat, bs: seq<byte>)
    requires At(data, pos, bs) && |bs| > 0
    ensures pos < |data| && data[pos] == bs[0]
  {
  }

  // ------------------------------------------------------------- varints

  /** w moved up by `index` groups of seven bits: w * 128^index. */
  function Lift(w: nat, index: nat): (r: nat)
    ensures r >= w
  {
    if index == 0 then w else 0x80 * Lift(w, index - 1)
  }

  lemma {:induction false} LiftAdd(a: nat, b: nat, index: nat)
    ensures Lift(a + b, index) == Lift(a, index) + Lift(b, index)
  {
    if index > 0 {
      LiftAdd(a, b, index - 1);
    }
  }

  lemma {:induction false} LiftUp(h: nat, index: nat)
    ensures Lift(0x80 * h, index) == Lift(h, index + 1)
  {
    if index > 0 {
      LiftUp(h, index - 1);
    }
  }

  lemma {:induction false} LiftMono(a: nat, b: nat, index: nat)
    requires a <= b
    ensures Lift(a, index) <= Lift(b, index)
  {
    if index > 0 {
      LiftMono(a, b, index - 1);
    }
  }

  lemma {:induction false} LiftScale(c: nat, index: nat)
    ensures Lift(c, index) == c * Lift(1, index)
  {
    if index > 0 {
      LiftScale(c, index - 1);
      assert 0x80 * (c * Lift(1, index - 1)) == c * (0x80 * Lift(1, index - 1));
    }
  }

  lemma {:induction false} LiftPow2(w: nat, index: nat)
    ensures Lift(w, index) == w * Pow2(7 * index)
  {
    if index > 0 {
      LiftPow2(w, index - 1);
      NextGroup(index - 1);
      assert 0x80 * (w * Pow2(7 * (index - 1))) == w * (Pow2(7 * (index - 1)) * 0x80);
    }
  }

  lemma {:induction false} NextGroup(index: nat)
    ensures Pow2(7 * (index + 1)) == Pow2(7 * index) * 0x80
  {
    Pow2Add(7 * index, 7);
    assert Pow2(7) == 0x80;
    assert 7 * (index + 1) == 7 * index + 7;
  }

  /** A byte sequence shaped as the encoder shapes it: bit 7 on every byte
      but the last. */
  predicate Groups(bs: seq<byte>) {
    |bs| >= 1 && bs[|bs| - 1] < 0x80 && forall k | 0 <= k < |bs| - 1 :: bs[k] >= 0x80
  }

  /** The do-while started on such a sequence stops just after it. */
  lemma {:induction false} GroupsEnd(data: seq<byte>, pos: nat, bs: seq<byte>)
    requires At(data, pos, bs) && Groups(bs)
    ensures VarintEnd(data, pos) == Ok(pos + |bs|)
    decreases |bs|
  {
    AtFirst(data, pos, bs);
    if |bs| > 1 {
      assert bs == [bs[0]] + bs[1..];
      AtSplit(data, pos, [bs[0]], bs[1..]);
      assert Groups(bs[1..]) by {
        forall k | 0 <= k < |bs[1..]| - 1
          ensures bs[1..][k] >= 0x80
        {
          assert bs[1..][k] == bs[k + 1];
        }
      }
      GroupsEnd(data, pos + 1, bs[1..]);
    }
  }

  /** k groups denote a number below 128^k. */
  lemma {:induction false} FromGroupsBound(bs: seq<byte>)
    ensures W.FromGroups(bs) < Lift(1, |bs|)
  {
    if bs != [] {
      FromGroupsBound(bs[1..]);
    }
  }

  /** A group appended after k others lands k groups up. */
  lemma {:induction false} FromGroupsSnoc(bs: seq<byte>, b: byte)
    ensures W.FromGroups(bs + [b]) == W.FromGroups(bs) + Lift(b % 0x80, |bs|)
  {
    if bs == [] {
      assert [b][1..] == [];
    } else {
      assert (bs + [b])[1..] == bs[1..] + [b];
      FromGroupsSnoc(bs[1..], b);
    }
  }

  /** Up to five groups ORed in one by one, as the do-while does, give the
      number they denote when it fits in 32 bits. */
  lemma {:induction false} CombineGroups(gs: seq<byte>)
    requires |gs| <= 5 && W.FromGroups(gs) < 0x1_0000_0000
    ensures Combine(gs) == W.FromGroups(gs)
    decreases |gs|
  {
    if gs != [] {
      var prefix, last := gs[..|gs| - 1], gs[|gs| - 1];
      assert gs == prefix + [last];
      FromGroupsSnoc(prefix, last);
      CombineGroups(prefix);
      FromGroupsBound(prefix);
      AccumulateGroup(W.FromGroups(prefix), last, |prefix|);
    }
  }

  /** One group ORed in below bit 32 lands on fresh bits. */
  lemma {:induction false} AccumulateGroup(value: uint32, b: byte, index: nat)
    requires 7 * index < 32 && value < Lift(1, index)
    requires value + Lift(b % 0x80, index) < 0x1_0000_0000
    ensures Accumulate(value, b, index) == value + Lift(b % 0x80, index)
  {
    LiftPow2(b % 0x80, index);
    LiftPow2(1, index);
    assert GroupShift(index) == 7 * index;
    ShiftLeftExact(b % 0x80, 7 * index);
    Pow2Of32();
    BitOrDisjoint(value, b % 0x80, 7 * index, 32);
  }

  /** `Read7BitEncodedInt` inverts the encoder on every 32-bit pattern: it
      reads back the `int` with that pattern and stops after the last byte. */
  lemma {:induction false} VarintRoundTrip(data: seq<byte>, pos: nat, u: nat)
    requires u < 0x1_0000_0000 && At(data, pos, W.Varint(u))
    ensures ParseVarint(data, pos) == Ok(Parsed(AsInt(u), pos + |W.Varint(u)|))
  {
    VarintFacts(u);
    GroupsRead(data, pos, W.Varint(u));
  }

  /** At most five groups that denote a 32-bit pattern read back as the
      `int` with that pattern. */
  lemma GroupsRead(data: seq<byte>, pos: nat, bs: seq<byte>)
    requires Groups(bs) && |bs| <= 5 && W.FromGroups(bs) < 0x1_0000_0000 && At(data, pos, bs)
    ensures ParseVarint(data, pos) == Ok(Parsed(AsInt(W.FromGroups(bs)), pos + |bs|))
  {
    GroupsEnd(data, pos, bs);
    AtSlice(data, pos, bs);
    CombineGroups(bs);
  }

  /** What the reader needs of a 32-bit pattern's encoding: its shape, at
      most five groups, and the number they denote. */
  lemma {:induction false} VarintFacts(u: nat)
    requires u < 0x1_0000_0000
    ensures Groups(W.Varint(u)) && |W.Varint(u)| <= 5 && W.FromGroups(W.Varint(u)) == u
  {
    W.VarintShape(u);
    W.VarintGroups(u);
    W.Pow128Values();
    W.VarintLength(u, 5);
  }

  /** A length or a non-negative `int` reads back as itself. */
  lemma {:induction false} LengthRoundTrip(data: seq<byte>, pos: nat, n: nat)
    requires n <= MAX_LENGTH && At(data, pos, W.Varint(n))
    ensures ParseVarint(data, pos) == Ok(Parsed(n, pos + |W.Varint(n)|))
    ensures ParseArrayLength(data, pos) == Ok(Parsed(n, pos + |W.Varint(n)|))
  {
    VarintRoundTrip(data, pos, n);
    Pow256Widths();
  }

  // ------------------------------------------------------------- scalars

  /** A fixed-width value written by the writer reads back as itself. */
  lemma {:induction false} FixedRead(data: seq<byte>, pos: nat, x: int, width: nat, signed: bool)
    requires IsJavaWidth(width) && Fits(x, width, signed) && At(data, pos, W.EncodeFixed(x, width))
    ensures GetScalar(data, pos, width, signed) == Ok(Parsed(x, pos + width))
  {
    var u := ToUnsigned(x, width);
    AtSlice(data, pos, W.EncodeFixed(x, width));
    LittleEndianRoundTrip(u, width);
    assert FromLittleEndian(data[pos..pos + width]) == u;
    if signed {
      SignedRoundTrip(x, width);
    } else {
      PatternOf(x, Pow256(width));
    }
  }

  /** A boolean byte reads back as the boolean. */
  lemma {:induction false} BooleanRead(data: seq<byte>, pos: nat, z: bool)
    requires At(data, pos, W.EncodeBoolean(z))
    ensures ParseBoolean(data, pos) == Ok(Parsed(z, pos + 1))
  {
    AtFirst(data, pos, W.EncodeBoolean(z));
  }

  /** A string of Java size reads back as its bytes. */
  lemma {:induction false} StringRead(data: seq<byte>, pos: nat, s: seq<byte>)
    requires |s| <= MAX_LENGTH && At(data, pos, W.EncodeString(s))
    ensures ParseString(data, pos) == Ok(Parsed(s, pos + |W.EncodeString(s)|))
  {
    AtSplit(data, pos, W.Varint(|s|), s);
    AtSlice(data, pos + |W.Varint(|s|)|, s);
    LengthRoundTrip(data, pos, |s|);
  }

  // -------------------------------------------------------------- arrays

  /** Moving the first of xs over to acc keeps the concatenation. */
  lemma {:induction false} MoveFirst<T>(acc: seq<T>, xs: seq<T>)
    requires xs != []
    ensures (acc + [xs[0]]) + xs[1..] == acc + xs
  {
    assert xs == [xs[0]] + xs[1..];
  }

  /** The first element of a fixed-width array reads back, and the rest of
      the encoding follows it. */
  lemma {:induction false} WordsHead(data: seq<byte>, pos: nat, xs: seq<int>, width: nat, signed: bool)
    requires IsJavaWidth(width) && xs != [] && Fits(xs[0], width, signed)
    requires At(data, pos, W.EncodeWords(xs, width))
    ensures GetScalar(data, pos, width, signed) == Ok(Parsed(xs[0], pos + width))
    ensures At(data, pos + width, W.EncodeWords(xs[1..], width))
  {
    AtSplit(data, pos, W.EncodeFixed(xs[0], width), W.EncodeWords(xs[1..], width));
    FixedRead(data, pos, xs[0], width, signed);
  }

  /** n fixed-width elements read back in order after those already read. */
  lemma {:induction false} WordsRead(data: seq<byte>, pos: nat, xs: seq<int>, width: nat, signed: bool, acc: seq<int>)
    requires IsJavaWidth(width) && forall k | 0 <= k < |xs| :: Fits(xs[k], width, signed)
    requires At(data, pos, W.EncodeWords(xs, width))
    ensures ParseWords(data, pos, |xs|, width, signed, acc) == Ok(Parsed(acc + xs, pos + width * |xs|))
    decreases |xs|
  {
    if xs == [] {
      assert acc + xs == acc;
    } else {
      var rest := xs[1..];
      WordsHead(data, pos, xs, width, signed);
      WordsStep(data, pos, |xs|, width, signed, acc, GetScalar(data, pos, width, signed));
      assert forall k | 0 <= k < |rest| :: rest[k] == xs[k + 1];
      WordsRead(data, pos + width, rest, width, signed, acc + [xs[0]]);
      MoveFirst(acc, xs);
      assert width * |xs| == width + width * |rest|;
    }
  }

  /** n booleans read back in order after those already read. */
  lemma {:induction false} BooleansRead(data: seq<byte>, pos: nat, zs: seq<bool>, acc: seq<bool>)
    requires At(data, pos, W.EncodeBooleans(zs))
    ensures ParseBooleans(data, pos, |zs|, acc) == Ok(Parsed(acc + zs, pos + |zs|))
    decreases |zs|
  {
    if zs == [] {
      assert acc + zs == acc;
    } else {
      AtSplit(data, pos, W.EncodeBoolean(zs[0]), W.EncodeBooleans(zs[1..]));
      BooleanRead(data, pos, zs[0]);
      BooleansStep(data, pos, |zs|, acc, ParseBoolean(data, pos));
      BooleansRead(data, pos + 1, zs[1..], acc + [zs[0]]);
      MoveFirst(acc, zs);
    }
  }

  /** A string array's encoding is its first string's followed by the rest's. */
  lemma {:induction false} StringsSplit(data: seq<byte>, pos: nat, ss: seq<seq<byte>>)
    requires ss != [] && At(data, pos, W.EncodeStrings(ss))
    ensures At(data, pos, W.EncodeString(ss[0]))
    ensures At(data, pos + |W.EncodeString(ss[0])|, W.EncodeStrings(ss[1..]))
    ensures |W.EncodeStrings(ss)| == |W.EncodeString(ss[0])| + |W.EncodeStrings(ss[1..])|
  {
    AtSplit(data, pos, W.EncodeString(ss[0]), W.EncodeStrings(ss[1..]));
  }

  /** Every string after the first is of Java size too. */
  lemma {:induction false} SizedTail(ss: seq<seq<byte>>)
    requires ss != [] && forall k | 0 <= k < |ss| :: |ss[k]| <= MAX_LENGTH
    ensures forall k | 0 <= k < |ss[1..]| :: |ss[1..][k]| <= MAX_LENGTH
  {
    assert forall k | 0 <= k < |ss[1..]| :: ss[1..][k] == ss[k + 1];
  }

  /** The loop's first turn reads the first string back and goes on after it. */
  lemma {:induction false} StringsFirst(data: seq<byte>, pos: nat, s: seq<byte>, n: nat, acc: seq<seq<byte>>)
    requires n > 0 && |s| <= MAX_LENGTH && At(data, pos, W.EncodeString(s))
    ensures ParseStrings(data, pos, n, acc) == ParseStrings(data, pos + |W.EncodeString(s)|, n - 1, acc + [s])
  {
    StringRead(data, pos, s);
    StringsStep(data, pos, n, acc, ParseString(data, pos));
  }

  /** n strings read back in order after those already read, the loop
      stopping at end, where their encoding ends. */
  lemma {:induction false} StringsRead(data: seq<byte>, pos: nat, ss: seq<seq<byte>>, acc: seq<seq<byte>>, end: nat)
    requires forall k | 0 <= k < |ss| :: |ss[k]| <= MAX_LENGTH
    requires At(data, pos, W.EncodeStrings(ss)) && end == pos + |W.EncodeStrings(ss)|
    ensures ParseStrings(data, pos, |ss|, acc) == Ok(Parsed(acc + ss, end))
    decreases |ss|
  {
    if ss == [] {
      assert acc + ss == acc;
    } else {
      var next := pos + |W.EncodeString(ss[0])|;
      StringsSplit(data, pos, ss);
      SizedTail(ss);
      StringsRead(data, next, ss[1..], acc + [ss[0]], end);
      StringsFirst(data, pos, ss[0], |ss|, acc);
      MoveFirst(acc, ss);
    }
  }

  /** The bytes of a byte array read back as the same Java bytes. */
  lemma {:induction false} JavaBytesRoundTrip(a: seq<int8>)
    ensures AsJavaBytes(W.EncodeWords(a, 1)) == a
  {
    var b := AsJavaBytes(W.EncodeWords(a, 1));
    W.BytePatterns(a);
    forall k | 0 <= k < |a|
      ensures b[k] == a[k]
    {
      SignedRoundTrip(a[k], 1);
      SignedRoundTrip(b[k], 1);
    }
  }

  // ------------------------------------------------------------ payloads

  /** An array's length prefix reads back, and the elements follow it. */
  lemma {:induction false} ArrayPrefix(data: seq<byte>, pos: nat, n: nat, rest: seq<byte>)
    requires n <= MAX_LENGTH && At(data, pos, W.Varint(n) + rest)
    ensures ParseVarint(data, pos) == Ok(Parsed(n, pos + |W.Varint(n)|))
    ensures ParseArrayLength(data, pos) == Ok(Parsed(n, pos + |W.Varint(n)|))
    ensures At(data, pos + |W.Varint(n)|, rest)
  {
    AtSplit(data, pos, W.Varint(n), rest);
    LengthRoundTrip(data, pos, n);
  }

  /** The element loops started on an empty array, as the readers start them. */
  lemma {:induction false} WordsFrom(data: seq<byte>, pos: nat, xs: seq<int>, width: nat, signed: bool, end: nat)
    requires IsJavaWidth(width) && forall k | 0 <= k < |xs| :: Fits(xs[k], width, signed)
    requires At(data, pos, W.EncodeWords(xs, width)) && end == pos + width * |xs|
    ensures ParseWords(data, pos, |xs|, width, signed, []) == Ok(Parsed(xs, end))
  {
    WordsRead(data, pos, xs, width, signed, []);
    assert [] + xs == xs;
  }

  lemma {:induction false} BooleansFrom(data: seq<byte>, pos: nat, zs: seq<bool>, end: nat)
    requires At(data, pos, W.EncodeBooleans(zs)) && end == pos + |zs|
    ensures ParseBooleans(data, pos, |zs|, []) == Ok(Parsed(zs, end))
  {
    BooleansRead(data, pos, zs, []);
    assert [] + zs == zs;
  }

  lemma {:induction false} StringsFrom(data: seq<byte>, pos: nat, ss: seq<seq<byte>>, end: nat)
    requires forall k | 0 <= k < |ss| :: |ss[k]| <= MAX_LENGTH
    requires At(data, pos, W.EncodeStrings(ss)) && end == pos + |W.EncodeStrings(ss)|
    ensures ParseStrings(data, pos, |ss|, []) == Ok(Parsed(ss, end))
  {
    StringsRead(data, pos, ss, [], end);
    assert [] + ss == ss;
  }

  /** Each scalar reader inverts its writer. */
  lemma {:induction false} Int8Read(data: seq<byte>, pos: nat, x: int8)
    requires At(data, pos, W.EncodeFixed(x, 1))
    ensures ParseInt8(data, pos) == Ok(Parsed(ByteVal(x), pos + 1))
  {
    Pow256Widths();
    FixedRead(data, pos, x, 1, true);
  }

  lemma {:induction false} Int16Read(data: seq<byte>, pos: nat, x: int16)
    requires At(data, pos, W.EncodeFixed(x, 2))
    ensures ParseInt16(data, pos) == Ok(Parsed(ShortVal(x), pos + 2))
  {
    Pow256Widths();
    FixedRead(data, pos, x, 2, true);
  }

  lemma {:induction false} Int32Read(data: seq<byte>, pos: nat, x: int32)
    requires At(data, pos, W.EncodeFixed(x, 4))
    ensures ParseInt32(data, pos) == Ok(Parsed(IntVal(x), pos + 4))
  {
    Pow256Widths();
    FixedRead(data, pos, x, 4, true);
  }

  lemma {:induction false} Int64Read(data: seq<byte>, pos: nat, x: int64)
    requires At(data, pos, W.EncodeFixed(x, 8))
    ensures ParseInt64(data, pos) == Ok(Parsed(LongVal(x), pos + 8))
  {
    Pow256Widths();
    FixedRead(data, pos, x, 8, true);
  }

  lemma {:induction false} FloatRead(data: seq<byte>, pos: nat, x: uint32)
    requires At(data, pos, W.EncodeFixed(x, 4))
    ensures ParseFloat(data, pos) == Ok(Parsed(FloatVal(x), pos + 4))
  {
    Pow256Widths();
    FixedRead(data, pos, x, 4, false);
  }

  lemma {:induction false} DoubleRead(data: seq<byte>, pos: nat, x: uint64)
    requires At(data, pos, W.EncodeFixed(x, 8))
    ensures ParseDouble(data, pos) == Ok(Parsed(DoubleVal(x), pos + 8))
  {
    Pow256Widths();
    FixedRead(data, pos, x, 8, false);
  }

  /** Each scalar payload is read back by the table's reader of its kind. */
  lemma {:induction false} BytePayload(data: seq<byte>, pos: nat, v: Value, bs: seq<byte>, end: nat)
    requires v.ByteVal? && SizedValue(v)
    requires W.EncodeScalar(v) == Ok(bs) && At(data, pos, bs) && end == pos + |bs|
    ensures ParseScalarPayload(data, pos, InferType(v)) == Ok(Parsed(v, end))
  {
    Int8Read(data, pos, v.b);
  }

  lemma {:induction false} ShortPayload(data: seq<byte>, pos: nat, v: Value, bs: seq<byte>, end: nat)
    requires v.ShortVal? && SizedValue(v)
    requires W.EncodeScalar(v) == Ok(bs) && At(data, pos, bs) && end == pos + |bs|
    ensures ParseScalarPayload(data, pos, InferType(v)) == Ok(Parsed(v, end))
  {
    Int16Read(data, pos, v.s);
  }

  lemma {:induction false} IntPayload(data: seq<byte>, pos: nat, v: Value, bs: seq<byte>, end: nat)
    requires v.IntVal? && SizedValue(v)
    requires W.EncodeScalar(v) == Ok(bs) && At(data, pos, bs) && end == pos + |bs|
    ensures ParseScalarPayload(data, pos, InferType(v)) == Ok(Parsed(v, end))
  {
    Int32Read(data, pos, v.i);
  }

  lemma {:induction false} LongPayload(data: seq<byte>, pos: nat, v: Value, bs: seq<byte>, end: nat)
    requires v.LongVal? && SizedValue(v)
    requires W.EncodeScalar(v) == Ok(bs) && At(data, pos, bs) && end == pos + |bs|
    ensures ParseScalarPayload(data, pos, InferType(v)) == Ok(Parsed(v, end))
  {
    Int64Read(data, pos, v.l);
  }

  lemma {:induction false} FloatPayload(data: seq<byte>, pos: nat, v: Value, bs: seq<byte>, end: nat)
    requires v.FloatVal? && SizedValue(v)
    requires W.EncodeScalar(v) == Ok(bs) && At(data, pos, bs) && end == pos + |bs|
    ensures ParseScalarPayload(data, pos, InferType(v)) == Ok(Parsed(v, end))
  {
    FloatRead(data, pos, v.fbits);
  }

  lemma {:induction false} DoublePayload(data: seq<byte>, pos: nat, v: Value, bs: seq<byte>, end: nat)
    requires v.DoubleVal? && SizedValue(v)
    requires W.EncodeScalar(v) == Ok(bs) && At(data, pos, bs) && end == pos + |bs|
    ensures ParseScalarPayload(data, pos, InferType(v)) == Ok(Parsed(v, end))
  {
    DoubleRead(data, pos, v.dbits);
  }

  lemma {:induction false} BoolPayload(data: seq<byte>, pos: nat, v: Value, bs: seq<byte>, end: nat)
    requires v.BoolVal? && SizedValue(v)
    requires W.EncodeScalar(v) == Ok(bs) && At(data, pos, bs) && end == pos + |bs|
    ensures ParseScalarPayload(data, pos, InferType(v)) == Ok(Parsed(v, end))
  {
    BooleanRead(data, pos, v.z);
  }

  lemma {:induction false} StringPayload(data: seq<byte>, pos: nat, v: Value, bs: seq<byte>, end: nat)
    requires v.StringVal? && SizedValue(v)
    requires W.EncodeScalar(v) == Ok(bs) && At(data, pos, bs) && end == pos + |bs|
    ensures ParseScalarPayload(data, pos, InferType(v)) == Ok(Parsed(v, end))
  {
    StringRead(data, pos, v.str);
  }

  /** A scalar payload other than a compound read back by the reader of
      its own kind. */
  lemma {:induction false} ScalarRoundTrip(data: seq<byte>, pos: nat, v: Value, bs: seq<byte>, end: nat)
    requires !IsArrayShape(v) && !v.CompoundVal? && SizedValue(v)
    requires W.EncodeScalar(v) == Ok(bs) && At(data, pos, bs) && end == pos + |bs|
    ensures ParseScalarPayload(data, pos, InferType(v)) == Ok(Parsed(v, end))
  {
    if v.ByteVal? {
      BytePayload(data, pos, v, bs, end);
    } else if v.ShortVal? {
      ShortPayload(data, pos, v, bs, end);
    } else if v.IntVal? {
      IntPayload(data, pos, v, bs, end);
    } else if v.LongVal? {
      LongPayload(data, pos, v, bs, end);
    } else if v.FloatVal? {
      FloatPayload(data, pos, v, bs, end);
    } else if v.DoubleVal? {
      DoublePayload(data, pos, v, bs, end);
    } else if v.BoolVal? {
      BoolPayload(data, pos, v, bs, end);
    } else {
      StringPayload(data, pos, v, bs, end);
    }
  }

  /** Each array reader inverts its writer. */
  lemma {:induction false} ByteArrayRead(data: seq<byte>, pos: nat, a: seq<int8>, bs: seq<byte>, end: nat)
    requires |a| <= MAX_LENGTH && bs == W.Varint(|a|) + W.EncodeWords(a, 1)
    requires At(data, pos, bs) && end == pos + |bs|
    ensures ParseByteArray(data, pos) == Ok(Parsed(ByteArrayVal(a), end))
  {
    var mid := pos + |W.Varint(|a|)|;
    var words := W.EncodeWords(a, 1);
    assert |words| == |a|;
    ArrayPrefix(data, pos, |a|, words);
    AtSlice(data, mid, words);
    JavaBytesRoundTrip(a);
    ByteArrayFrom(data, pos, |a|, mid, words, a, end);
  }

  /** The reader's byte array from its length and its bytes. */
  lemma ByteArrayFrom(data: seq<byte>, pos: nat, n: nat, mid: nat, words: seq<byte>, a: seq<int8>, end: nat)
    requires pos <= mid <= |data| && ParseArrayLength(data, pos) == Ok(Parsed(n, mid))
    requires |words| == n && mid + n <= |data| && data[mid..mid + n] == words && end == mid + n
    requires AsJavaBytes(words) == a
    ensures ParseByteArray(data, pos) == Ok(Parsed(ByteArrayVal(a), end))
  {
  }

  lemma {:induction false} ShortArrayRead(data: seq<byte>, pos: nat, a: seq<int16>, bs: seq<byte>, end: nat)
    requires |a| <= MAX_LENGTH && bs == W.Varint(|a|) + W.EncodeWords(a, 2)
    requires At(data, pos, bs) && end == pos + |bs|
    ensures ParseShortArray(data, pos) == Ok(Parsed(ShortArrayVal(a), end))
  {
    ArrayPrefix(data, pos, |a|, W.EncodeWords(a, 2));
    Pow256Widths();
    WordsFrom(data, pos + |W.Varint(|a|)|, a, 2, true, end);
  }

  lemma {:induction false} IntArrayRead(data: seq<byte>, pos: nat, a: seq<int32>, bs: seq<byte>, end: nat)
    requires |a| <= MAX_LENGTH && bs == W.Varint(|a|) + W.EncodeWords(a, 4)
    requires At(data, pos, bs) && end == pos + |bs|
    ensures ParseIntArray(data, pos) == Ok(Parsed(IntArrayVal(a), end))
  {
    ArrayPrefix(data, pos, |a|, W.EncodeWords(a, 4));
    Pow256Widths();
    WordsFrom(data, pos + |W.Varint(|a|)|, a, 4, true, end);
  }

  lemma {:induction false} LongArrayRead(data: seq<byte>, pos: nat, a: seq<int64>, bs: seq<byte>, end: nat)
    requires |a| <= MAX_LENGTH && bs == W.Varint(|a|) + W.EncodeWords(a, 8)
    requires At(data, pos, bs) && end == pos + |bs|
    ensures ParseLongArray(data, pos) == Ok(Parsed(LongArrayVal(a), end))
  {
    ArrayPrefix(data, pos, |a|, W.EncodeWords(a, 8));
    Pow256Widths();
    WordsFrom(data, pos + |W.Varint(|a|)|, a, 8, true, end);
  }

  lemma {:induction false} FloatArrayRead(data: seq<byte>, pos: nat, a: seq<uint32>, bs: seq<byte>, end: nat)
    requires |a| <= MAX_LENGTH && bs == W.Varint(|a|) + W.EncodeWords(a, 4)
    requires At(data, pos, bs) && end == pos + |bs|
    ensures ParseFloatArray(data, pos) == Ok(Parsed(FloatArrayVal(a), end))
  {
    ArrayPrefix(data, pos, |a|, W.EncodeWords(a, 4));
    Pow256Widths();
    WordsFrom(data, pos + |W.Varint(|a|)|, a, 4, false, end);
  }

  lemma {:induction false} DoubleArrayRead(data: seq<byte>, pos: nat, a: seq<uint64>, bs: seq<byte>, end: nat)
    requires |a| <= MAX_LENGTH && bs == W.Varint(|a|) + W.EncodeWords(a, 8)
    requires At(data, pos, bs) && end == pos + |bs|
    ensures ParseDoubleArray(data, pos) == Ok(Parsed(DoubleArrayVal(a), end))
  {
    ArrayPrefix(data, pos, |a|, W.EncodeWords(a, 8));
    Pow256Widths();
    WordsFrom(data, pos + |W.Varint(|a|)|, a, 8, false, end);
  }

  lemma {:induction false} BoolArrayRead(data: seq<byte>, pos: nat, a: seq<bool>, bs: seq<byte>, end: nat)
    requires |a| <= MAX_LENGTH && bs == W.Varint(|a|) + W.EncodeBooleans(a)
    requires At(data, pos, bs) && end == pos + |bs|
    ensures ParseBooleanArray(data, pos) == Ok(Parsed(BoolArrayVal(a), end))
  {
    ArrayPrefix(data, pos, |a|, W.EncodeBooleans(a));
    BooleansFrom(data, pos + |W.Varint(|a|)|, a, end);
  }

  lemma {:induction false} StringArrayRead(data: seq<byte>, pos: nat, a: seq<seq<byte>>, bs: seq<byte>, end: nat)
    requires |a| <= MAX_LENGTH && forall k | 0 <= k < |a| :: |a[k]| <= MAX_LENGTH
    requires bs == W.Varint(|a|) + W.EncodeStrings(a)
    requires At(data, pos, bs) && end == pos + |bs|
    ensures ParseStringArray(data, pos) == Ok(Parsed(StringArrayVal(a), end))
  {
    ArrayPrefix(data, pos, |a|, W.EncodeStrings(a));
    StringsFrom(data, pos + |W.Varint(|a|)|, a, end);
  }

  /** Each array payload is read back by the table's reader of its kind. */
  lemma {:induction false} ByteArrayPayload(data: seq<byte>, pos: nat, v: Value, bs: seq<byte>, end: nat)
    requires v.ByteArrayVal? && SizedValue(v)
    requires W.EncodeArray(v) == Ok(bs) && At(data, pos, bs) && end == pos + |bs|
    ensures ParseArrayPayload(data, pos, InferType(v)) == Ok(Parsed(v, end))
  {
    ByteArrayRead(data, pos, v.bytes, bs, end);
  }

  lemma {:induction false} ShortArrayPayload(data: seq<byte>, pos: nat, v: Value, bs: seq<byte>, end: nat)
    requires v.ShortArrayVal? && SizedValue(v)
    requires W.EncodeArray(v) == Ok(bs) && At(data, pos, bs) && end == pos + |bs|
    ensures ParseArrayPayload(data, pos, InferType(v)) == Ok(Parsed(v, end))
  {
    ShortArrayRead(data, pos, v.shorts, bs, end);
  }

  lemma {:induction false} IntArrayPayload(data: seq<byte>, pos: nat, v: Value, bs: seq<byte>, end: nat)
    requires v.IntArrayVal? && SizedValue(v)
    requires W.EncodeArray(v) == Ok(bs) && At(data, pos, bs) && end == pos + |bs|
    ensures ParseArrayPayload(data, pos, InferType(v)) == Ok(Parsed(v, end))
  {
    IntArrayRead(data, pos, v.ints, bs, end);
  }

  lemma {:induction false} LongArrayPayload(data: seq<byte>, pos: nat, v: Value, bs: seq<byte>, end: nat)
    requires v.LongArrayVal? && SizedValue(v)
    requires W.EncodeArray(v) == Ok(bs) && At(data, pos, bs) && end == pos + |bs|
    ensures ParseArrayPayload(data, pos, InferType(v)) == Ok(Parsed(v, end))
  {
    LongArrayRead(data, pos, v.longs, bs, end);
  }

  lemma {:induction false} FloatArrayPayload(data: seq<byte>, pos: nat, v: Value, bs: seq<byte>, end: nat)
    requires v.FloatArrayVal? && SizedValue(v)
    requires W.EncodeArray(v) == Ok(bs) && At(data, pos, bs) && end == pos + |bs|
    ensures ParseArrayPayload(data, pos, InferType(v)) == Ok(Parsed(v, end))
  {
    FloatArrayRead(data, pos, v.floats, bs, end);
  }

  lemma {:induction false} DoubleArrayPayload(data: seq<byte>, pos: nat, v: Value, bs: seq<byte>, end: nat)
    requires v.DoubleArrayVal? && SizedValue(v)
    requires W.EncodeArray(v) == Ok(bs) && At(data, pos, bs) && end == pos + |bs|
    ensures ParseArrayPayload(data, pos, InferType(v)) == Ok(Parsed(v, end))
  {
    DoubleArrayRead(data, pos, v.doubles, bs, end);
  }

  lemma {:induction false} BoolArrayPayload(data: seq<byte>, pos: nat, v: Value, bs: seq<byte>, end: nat)
    requires v.BoolArrayVal? && SizedValue(v)
    requires W.EncodeArray(v) == Ok(bs) && At(data, pos, bs) && end == pos + |bs|
    ensures ParseArrayPayload(data, pos, InferType(v)) == Ok(Parsed(v, end))
  {
    BoolArrayRead(data, pos, v.bools, bs, end);
  }

  lemma {:induction false} StringArrayPayload(data: seq<byte>, pos: nat, v: Value, bs: seq<byte>, end: nat)
    requires v.StringArrayVal? && SizedValue(v)
    requires W.EncodeArray(v) == Ok(bs) && At(data, pos, bs) && end == pos + |bs|
    ensures ParseArrayPayload(data, pos, InferType(v)) == Ok(Parsed(v, end))
  {
    StringArrayRead(data, pos, v.strs, bs, end);
  }

  /** An array payload other than a compound array read back by the reader
      of its own kind. */
  lemma {:induction false} ArrayRoundTrip(data: seq<byte>, pos: nat, v: Value, bs: seq<byte>, end: nat)
    requires IsArrayShape(v) && !v.CompoundArrayVal? && SizedValue(v)
    requires W.EncodeArray(v) == Ok(bs) && At(data, pos, bs) && end == pos + |bs|
    ensures ParseArrayPayload(data, pos, InferType(v)) == Ok(Parsed(v, end))
  {
    if v.ByteArrayVal? {
      ByteArrayPayload(data, pos, v, bs, end);
    } else if v.ShortArrayVal? {
      ShortArrayPayload(data, pos, v, bs, end);
    } else if v.IntArrayVal? {
      IntArrayPayload(data, pos, v, bs, end);
    } else if v.LongArrayVal? {
      LongArrayPayload(data, pos, v, bs, end);
    } else if v.FloatArrayVal? {
      FloatArrayPayload(data, pos, v, bs, end);
    } else if v.DoubleArrayVal? {
      DoubleArrayPayload(data, pos, v, bs, end);
    } else if v.BoolArrayVal? {
      BoolArrayPayload(data, pos, v, bs, end);
    } else {
      StringArrayPayload(data, pos, v, bs, end);
    }
  }

  // ----------------------------------------------------------- compounds

  /** The map the reader's entry loop builds on acc from the entries of d
      with ids ids, one `SetEntry` after the other. */
  function Merge(acc: map<int32, Value>, d: Doc, ids: seq<int32>): (m: map<int32, Value>)
    requires forall id | id in ids :: id in d.entries
    ensures acc.Keys <= m.Keys
    decreases |ids|
  {
    if ids == [] then acc else Merge(acc[ids[0] := d.entries[ids[0]]], d, ids[1..])
  }

  /** The merged map holds acc's entries and d's entries with ids ids, the
      latter winning. */
  lemma {:induction false} MergeContents(acc: map<int32, Value>, d: Doc, ids: seq<int32>)
    requires forall id | id in ids :: id in d.entries
    ensures forall k :: k in Merge(acc, d, ids) <==> k in acc || k in ids
    ensures forall k | k in Merge(acc, d, ids) :: Merge(acc, d, ids)[k] == if k in ids then d.entries[k] else acc[k]
    decreases |ids|
  {
    if ids != [] {
      var id := ids[0];
      MergeContents(acc[id := d.entries[id]], d, ids[1..]);
      assert forall k :: k in ids <==> k == id || k in ids[1..];
    }
  }

  /** Reading all of d's ids into an empty compound gives back d's map. */
  lemma {:induction false} MergeAll(d: Doc)
    ensures Merge(map[], d, W.SortedIds(d.entries.Keys)) == d.entries
  {
    var ids := W.SortedIds(d.entries.Keys);
    var m := Merge(map[], d, ids);
    MergeContents(map[], d, ids);
    assert m.Keys == d.entries.Keys;
  }

  /** The id of an entry the writer emits for a positive id reads back. */
  lemma {:induction false} IdRoundTrip(data: seq<byte>, pos: nat, id: int32)
    requires id > 0 && At(data, pos, W.VarintOf(id))
    ensures W.VarintOf(id) == W.Varint(id)
    ensures ParseVarint(data, pos) == Ok(Parsed(id, pos + |W.Varint(id)|))
  {
    Pow256Widths();
    PatternOf(id, Pow256(8));
    LengthRoundTrip(data, pos, id);
  }

  /** An entry's header: its id and its tag byte are read back and the
      payload follows them. */
  lemma {:induction false} EntryHead(data: seq<byte>, pos: nat, id: int32, tag: byte, payload: seq<byte>, bs: seq<byte>, next: nat)
    requires id > 0 && bs == W.VarintOf(id) + [tag] + payload && At(data, pos, bs)
    requires next == pos + |W.VarintOf(id)| + 1
    ensures ParseVarint(data, pos) == Ok(Parsed(id, next - 1))
    ensures GetByte(data, next - 1) == Ok(Parsed(tag, next))
    ensures At(data, next, payload)
  {
    var head := W.VarintOf(id);
    var tagged := head + [tag];
    PartsAt(data, pos, bs, tagged, payload);
    PartsAt(data, pos, tagged, head, [tag]);
    IdRoundTrip(data, pos, id);
    AtFirst(data, pos + |head|, [tag]);
  }

  /** One entry read back: the id, the tag the writer chose, the payload. */
  lemma {:induction false} EntryRoundTrip(data: seq<byte>, pos: nat, id: int32, v: Value, bs: seq<byte>, end: nat)
    requires id > 0 && ValuePositiveIds(v) && SizedValue(v)
    requires W.EncodeEntry(id, v, InferType(v)) == Ok(bs) && At(data, pos, bs) && end == pos + |bs|
    ensures ParseEntry(data, pos) == Ok(Parsed((id, v), end))
    decreases v, 2
  {
    var t := InferType(v);
    SignedTwinKind(t);
    W.EncodeEntryShape(id, v, t);
    var payload := W.EncodeValue(v).value;
    var next := pos + |W.VarintOf(id)| + 1;
    EntryHead(data, pos, id, GetByteData(t), payload, bs, next);
    ByteToEnumRoundTrip(t);
    PayloadRoundTrip(data, next, v, payload, end);
    EntryFrom(data, pos, id, next - 1, GetByteData(t), t, v, end);
  }

  /** The reader's entry from its parts: the id, the tag byte, the value. */
  lemma EntryFrom(data: seq<byte>, pos: nat, id: int32, tagPos: nat, tag: byte, t: GHDFType, v: Value, end: nat)
    requires pos <= |data| && id != 0 && ParseVarint(data, pos) == Ok(Parsed(id, tagPos))
    requires GetByte(data, tagPos) == Ok(Parsed(tag, tagPos + 1)) && ByteToEnum(tag) == Ok(t)
    requires ParsePayload(data, tagPos + 1, t) == Ok(Parsed(v, end))
    ensures ParseEntry(data, pos) == Ok(Parsed((id, v), end))
  {
  }

  /** The entries of d with ids ids read back on top of acc. */
  lemma {:induction false} EntriesRoundTrip(data: seq<byte>, pos: nat, d: Doc, ids: seq<int32>, acc: map<int32, Value>, bs: seq<byte>, end: nat)
    requires 0 !in acc && forall id | id in ids :: id in d.entries
    requires forall id | id in ids :: id > 0 && ValuePositiveIds(d.entries[id]) && SizedValue(d.entries[id])
    requires W.EncodeEntries(d, ids) == Ok(bs) && At(data, pos, bs) && end == pos + |bs|
    ensures ParseEntries(data, pos, |ids|, acc) == Ok(Parsed(Merge(acc, d, ids), end))
    decreases d, 1, |ids|
  {
    if ids != [] {
      var id := ids[0];
      var mid, rest := EntriesHead(data, pos, d, ids, acc, bs, end);
      EntriesRoundTrip(data, mid, d, ids[1..], acc[id := d.entries[id]], rest, end);
    }
  }

  /** The first entry of a run read back; the rest of the run's bytes follow it. */
  lemma {:induction false} EntriesHead(data: seq<byte>, pos: nat, d: Doc, ids: seq<int32>, acc: map<int32, Value>, bs: seq<byte>, end: nat)
      returns (mid: nat, rest: seq<byte>)
    requires ids != [] && ids[0] in d.entries && 0 !in acc
    requires ids[0] > 0 && ValuePositiveIds(d.entries[ids[0]]) && SizedValue(d.entries[ids[0]])
    requires forall id | id in ids :: id in d.entries
    requires W.EncodeEntries(d, ids) == Ok(bs) && At(data, pos, bs) && end == pos + |bs|
    ensures W.EncodeEntries(d, ids[1..]) == Ok(rest) && At(data, mid, rest) && end == mid + |rest|
    ensures ParseEntries(data, pos, |ids|, acc) == ParseEntries(data, mid, |ids| - 1, acc[ids[0] := d.entries[ids[0]]])
    decreases d, 0
  {
    var id := ids[0];
    var v := d.entries[id];
    var entry;
    entry, rest := EntriesBytes(d, ids, bs);
    mid := pos + |entry|;
    PartsAt(data, pos, bs, entry, rest);
    EntryRoundTrip(data, pos, id, v, entry, mid);
    EntriesStep(data, pos, |ids|, acc, ParseEntry(data, pos));
  }

  /** The bytes of a non-empty run of entries: the first entry, then the rest. */
  lemma EntriesBytes(d: Doc, ids: seq<int32>, bs: seq<byte>) returns (entry: seq<byte>, rest: seq<byte>)
    requires ids != [] && forall id | id in ids :: id in d.entries
    requires W.EncodeEntries(d, ids) == Ok(bs)
    ensures W.EncodeEntry(ids[0], d.entries[ids[0]], InferType(d.entries[ids[0]])) == Ok(entry)
    ensures W.EncodeEntries(d, ids[1..]) == Ok(rest) && bs == entry + rest
  {
    var v := d.entries[ids[0]];
    entry := W.EncodeEntry(ids[0], v, InferType(v)).value;
    rest := W.EncodeEntries(d, ids[1..]).value;
  }

  /** `ReadCompound` reads back what `WriteCompound` wrote: the same map. */
  lemma {:induction false} CompoundRoundTrip(data: seq<byte>, pos: nat, d: Doc, bs: seq<byte>, end: nat)
    requires PositiveIds(d) && SizedDoc(d)
    requires W.EncodeCompound(d) == Ok(bs) && At(data, pos, bs) && end == pos + |bs|
    ensures ParseCompound(data, pos) == Ok(Parsed(d, end))
    decreases d, 2
  {
    var ids := W.SortedIds(d.entries.Keys);
    var body := CompoundBytes(d, bs);
    var mid := CompoundHead(data, pos, |d.entries|, body, bs, end);
    EntriesRoundTrip(data, mid, d, ids, map[], body, end);
    MergeAll(d);
    assert |ids| == |d.entries|;
    CompoundFrom(data, pos, |ids|, mid, d.entries, end);
  }

  /** A compound's count read back; its entries' bytes follow it. */
  lemma {:induction false} CompoundHead(data: seq<byte>, pos: nat, n: nat, body: seq<byte>, bs: seq<byte>, end: nat)
      returns (mid: nat)
    requires n <= MAX_LENGTH && bs == W.Varint(n) + body
    requires At(data, pos, bs) && end == pos + |bs|
    ensures At(data, mid, body) && end == mid + |body|
    ensures ParseVarint(data, pos) == Ok(Parsed(n, mid))
  {
    mid := pos + |W.Varint(n)|;
    ArrayPrefix(data, pos, n, body);
  }

  lemma CompoundBytes(d: Doc, bs: seq<byte>) returns (body: seq<byte>)
    requires W.EncodeCompound(d) == Ok(bs)
    ensures W.EncodeEntries(d, W.SortedIds(d.entries.Keys)) == Ok(body)
    ensures bs == W.Varint(|d.entries|) + body
  {
    body := W.EncodeEntries(d, W.SortedIds(d.entries.Keys)).value;
  }

  /** The reader's compound from its count and its entries. */
  lemma CompoundFrom(data: seq<byte>, pos: nat, n: nat, mid: nat, m: map<int32, Value>, end: nat)
    requires pos <= mid <= |data| && ParseVarint(data, pos) == Ok(Parsed(n, mid))
    requires ParseEntries(data, mid, n, map[]) == Ok(Parsed(m, end))
    ensures ParseCompound(data, pos) == Ok(Parsed(Doc(m), end))
  {
  }

  /** The compounds of a compound array read back on top of acc. */
  lemma {:induction false} DocsRoundTrip(data: seq<byte>, pos: nat, ds: seq<Doc>, acc: seq<Doc>, bs: seq<byte>, end: nat)
    requires forall k | 0 <= k < |ds| :: PositiveIds(ds[k]) && SizedDoc(ds[k])
    requires W.EncodeDocs(ds) == Ok(bs) && At(data, pos, bs) && end == pos + |bs|
    ensures ParseDocs(data, pos, |ds|, acc) == Ok(Parsed(acc + ds, end))
    decreases ds, 1
  {
    if ds == [] {
      assert acc + ds == acc;
    } else {
      var mid, rest := DocsHead(data, pos, ds, acc, bs, end);
      assert forall k | 0 <= k < |ds[1..]| :: ds[1..][k] == ds[k + 1];
      DocsRoundTrip(data, mid, ds[1..], acc + [ds[0]], rest, end);
      MoveFirst(acc, ds);
    }
  }

  /** The first compound of a compound array read back; the rest of the
      list's bytes follow it. */
  lemma {:induction false} DocsHead(data: seq<byte>, pos: nat, ds: seq<Doc>, acc: seq<Doc>, bs: seq<byte>, end: nat)
      returns (mid: nat, rest: seq<byte>)
    requires ds != [] && PositiveIds(ds[0]) && SizedDoc(ds[0])
    requires W.EncodeDocs(ds) == Ok(bs) && At(data, pos, bs) && end == pos + |bs|
    ensures W.EncodeDocs(ds[1..]) == Ok(rest) && At(data, mid, rest) && end == mid + |rest|
    ensures ParseDocs(data, pos, |ds|, acc) == ParseDocs(data, mid, |ds| - 1, acc + [ds[0]])
    decreases ds, 0
  {
    var first;
    first, rest := DocsBytes(ds, bs);
    mid := pos + |first|;
    PartsAt(data, pos, bs, first, rest);
    CompoundRoundTrip(data, pos, ds[0], first, mid);
    DocsStep(data, pos, |ds|, acc, ParseCompound(data, pos));
  }

  /** The bytes of a non-empty list of compounds: the first, then the rest. */
  lemma DocsBytes(ds: seq<Doc>, bs: seq<byte>) returns (first: seq<byte>, rest: seq<byte>)
    requires ds != [] && W.EncodeDocs(ds) == Ok(bs)
    ensures W.EncodeCompound(ds[0]) == Ok(first) && W.EncodeDocs(ds[1..]) == Ok(rest) && bs == first + rest
  {
    first := W.EncodeCompound(ds[0]).value;
    rest := W.EncodeDocs(ds[1..]).value;
  }

  /** A nested compound read back as a value. */
  lemma {:induction false} CompoundPayload(data: seq<byte>, pos: nat, v: Value, bs: seq<byte>, end: nat)
    requires v.CompoundVal? && ValuePositiveIds(v) && SizedValue(v)
    requires W.EncodeScalar(v) == Ok(bs) && At(data, pos, bs) && end == pos + |bs|
    ensures ParseScalarPayload(data, pos, InferType(v)) == Ok(Parsed(v, end))
    decreases v, 0
  {
    CompoundValueRead(data, pos, v.doc, bs, end);
  }

  lemma {:induction false} CompoundValueRead(data: seq<byte>, pos: nat, d: Doc, bs: seq<byte>, end: nat)
    requires PositiveIds(d) && SizedDoc(d)
    requires W.EncodeCompound(d) == Ok(bs) && At(data, pos, bs) && end == pos + |bs|
    ensures ParseCompoundValue(data, pos) == Ok(Parsed(CompoundVal(d), end))
    decreases d, 3
  {
    CompoundRoundTrip(data, pos, d, bs, end);
  }

  /** A compound array read back: its length, then each compound. */
  lemma {:induction false} CompoundArrayRead(data: seq<byte>, pos: nat, ds: seq<Doc>, rest: seq<byte>, end: nat)
    requires |ds| <= MAX_LENGTH && forall k | 0 <= k < |ds| :: PositiveIds(ds[k]) && SizedDoc(ds[k])
    requires W.EncodeDocs(ds) == Ok(rest) && At(data, pos, W.Varint(|ds|) + rest)
    requires end == pos + |W.Varint(|ds|)| + |rest|
    ensures ParseCompoundArray(data, pos) == Ok(Parsed(CompoundArrayVal(ds), end))
    decreases ds, 3
  {
    var mid := CompoundArrayHalves(data, pos, ds, rest, end);
    CompoundArrayFrom(data, pos, |ds|, mid, ds, end);
  }

  /** The two halves of a compound array read back: its length, then its
      compounds. */
  lemma {:induction false} CompoundArrayHalves(data: seq<byte>, pos: nat, ds: seq<Doc>, rest: seq<byte>, end: nat)
      returns (mid: nat)
    requires |ds| <= MAX_LENGTH && forall k | 0 <= k < |ds| :: PositiveIds(ds[k]) && SizedDoc(ds[k])
    requires W.EncodeDocs(ds) == Ok(rest) && At(data, pos, W.Varint(|ds|) + rest)
    requires end == pos + |W.Varint(|ds|)| + |rest|
    ensures pos <= mid <= |data| && ParseArrayLength(data, pos) == Ok(Parsed(|ds|, mid))
    ensures ParseDocs(data, mid, |ds|, []) == Ok(Parsed(ds, end))
    decreases ds, 2
  {
    mid := pos + |W.Varint(|ds|)|;
    ArrayPrefix(data, pos, |ds|, rest);
    DocsRoundTrip(data, mid, ds, [], rest, end);
    assert [] + ds == ds;
  }

  /** The reader's compound array from its two halves. */
  lemma CompoundArrayFrom(data: seq<byte>, pos: nat, n: nat, mid: nat, ds: seq<Doc>, end: nat)
    requires pos <= mid <= |data| && ParseArrayLength(data, pos) == Ok(Parsed(n, mid))
    requires ParseDocs(data, mid, n, []) == Ok(Parsed(ds, end))
    ensures ParseCompoundArray(data, pos) == Ok(Parsed(CompoundArrayVal(ds), end))
  {
  }

  lemma {:induction false} CompoundArrayPayload(data: seq<byte>, pos: nat, v: Value, bs: seq<byte>, end: nat)
    requires v.CompoundArrayVal? && ValuePositiveIds(v) && SizedValue(v)
    requires W.EncodeArray(v) == Ok(bs) && At(data, pos, bs) && end == pos + |bs|
    ensures ParseArrayPayload(data, pos, InferType(v)) == Ok(Parsed(v, end))
    decreases v, 0
  {
    CompoundArrayRead(data, pos, v.docs, W.EncodeDocs(v.docs).value, end);
  }

  /** Every payload the writer emits is read back by the reader its tag
      selects, and the reader stops where the payload ends. */
  lemma {:induction false} PayloadRoundTrip(data: seq<byte>, pos: nat, v: Value, bs: seq<byte>, end: nat)
    requires ValuePositiveIds(v) && SizedValue(v)
    requires W.EncodeValue(v) == Ok(bs) && At(data, pos, bs) && end == pos + |bs|
    ensures ParsePayload(data, pos, InferType(v)) == Ok(Parsed(v, end))
    decreases v, 1
  {
    if v.CompoundVal? {
      CompoundPayload(data, pos, v, bs, end);
    } else if v.CompoundArrayVal? {
      CompoundArrayPayload(data, pos, v, bs, end);
    } else if IsArrayShape(v) {
      ArrayRoundTrip(data, pos, v, bs, end);
    } else {
      ScalarRoundTrip(data, pos, v, bs, end);
    }
  }

  // ------------------------------------------------------------ the body

  /** A document with positive ids has none that is 0. */
  lemma {:induction false} PositiveNoZero(d: Doc)
    ensures PositiveIds(d) ==> NoZeroIds(d)
    decreases d, 1
  {
    if PositiveIds(d) {
      forall id | id in d.entries
        ensures ValueNoZeroIds(d.entries[id])
      {
        ValuePositiveNoZero(d.entries[id]);
      }
    }
  }

  lemma {:induction false} ValuePositiveNoZero(v: Value)
    ensures ValuePositiveIds(v) ==> ValueNoZeroIds(v)
    decreases v, 0
  {
    match v
    case CompoundVal(d) => PositiveNoZero(d);
    case CompoundArrayVal(ds) =>
      forall i | 0 <= i < |ds|
        ensures PositiveIds(ds[i]) ==> NoZeroIds(ds[i])
      {
        PositiveNoZero(ds[i]);
      }
    case _ =>
  }

  /** `ReadCompound` over exactly the bytes `WriteCompound` emits for a
      compound with positive ids: the writer succeeds, and the reader consumes
      every byte and returns the same entries. */
  lemma {:induction false} BodyRoundTrip(d: Doc)
    requires ValidDoc(d)
    ensures W.EncodeCompound(d).Ok?
    ensures ParseCompound(W.EncodeCompound(d).value, 0) == Ok(Parsed(d, |W.EncodeCompound(d).value|))
  {
    PositiveNoZero(d);
    W.EncodeCompoundSucceeds(d);
    var bs := W.EncodeCompound(d).value;
    assert bs[0..|bs|] == bs;
    SliceAt(bs, 0, bs);
    CompoundRoundTrip(bs, 0, d, bs, |bs|);
  }
}
