/** Where the writer and the reader disagree. Each disagreement is stated
    twice: what the code as written does, on the inputs that show it, and a
    corrected encoding with the round trip the two sides were evidently meant
    to have. */
module Findings {
  import opened Wrappers
  import opened Bytes
  import opened Compounds
  import W = WriterV1
  import opened ReaderV1
  import opened RoundTrip
  import GhdfConstants

  // ------------------------------------------------------------- header

  /** A whole document as written is never accepted by the reader. The writer
      puts the version down as the one varint byte 0x01, and the reader takes
      that byte and the three after it as a 4-byte `int`. For an empty
      compound those three bytes are not there. Otherwise the first of them
      starts the entry count, which is not 0, so the version read is not 1. */
  lemma {:induction false} DocumentUnreadable(d: Doc)
    requires W.Document(d).Ok?
    ensures ParseDocument(W.Document(d).value).Err?
    ensures d.entries == map[] ==> ParseDocument(W.Document(d).value) == Err(Incomplete)
    ensures var data := W.Document(d).value;
      |data| >= 20 ==> ParseDocument(data) == Err(UnsupportedVersion(ToSigned(FromLittleEndian(data[16..20]), 4)))
  {
    var data := W.Document(d).value;
    var bs := W.EncodeCompound(d).value;
    var body := CompoundBytes(d, bs);
    assert data == W.Metadata() + (W.Varint(|d.entries|) + body);
    SignatureWritten(data);
    if d.entries == map[] {
      assert body == [];
      assert |data| == 18;
    } else {
      VersionClash(data, |d.entries|, body);
    }
  }

  /** The first 16 bytes of a written document are the signature. */
  lemma SignatureWritten(data: seq<byte>)
    requires |data| >= 17 && data[..17] == W.Metadata()
    ensures ParseSignature(data, 0) == Ok(Parsed((), 16))
  {
    assert data[0..16] == W.Metadata()[..16];
  }

  /** Behind the varint version, a count that is not 0 spoils the 4-byte
      version the reader expects. */
  lemma VersionClash(data: seq<byte>, n: nat, body: seq<byte>)
    requires n > 0 && data == W.Metadata() + (W.Varint(n) + body)
    ensures |data| >= 20 ==> ParseVersion(data, 16) == Err(UnsupportedVersion(ToSigned(FromLittleEndian(data[16..20]), 4)))
  {
    assert data[17] == W.Varint(n)[0] != 0;
    if |data| >= 20 {
      var v := data[16..20];
      assert FromLittleEndian(v) == v[0] + 0x100 * FromLittleEndian(v[1..]);
      assert FromLittleEndian(v[1..]) >= v[1];
      Pow256Widths();
    }
  }

  /** The header the reader accepts: the signature, then the version as a
      4-byte little-endian `int`. */
  function CorrectedHeader(): (bs: seq<byte>)
    ensures |bs| == 20 && bs[..16] == GhdfConstants.SIGNATURE
    ensures FromLittleEndian(bs[16..]) == GhdfConstants.VERSION
  {
    Pow256Widths();
    LittleEndianRoundTrip(1, 4);
    var version := W.EncodeFixed(GhdfConstants.VERSION, 4);
    assert (GhdfConstants.SIGNATURE + version)[16..] == version;
    GhdfConstants.SIGNATURE + version
  }

  /** `Write(compound, stream)` with that header. */
  function CorrectedDocument(d: Doc): (r: Result<seq<byte>, W.WriteError>)
    ensures r.Ok? <==> W.Document(d).Ok?
    ensures r.Ok? ==> |r.value| >= 20 && r.value[..20] == CorrectedHeader()
    ensures r.Ok? ==> r.value[20..] == W.Document(d).value[17..]
  {
    var body :- W.EncodeCompound(d);
    assert (CorrectedHeader() + body)[20..] == body;
    assert (W.Metadata() + body)[17..] == body;
    Ok(CorrectedHeader() + body)
  }

  /** The corrected document reads back whole: the reader accepts the header,
      consumes every byte of the body and returns the root compound. */
  lemma {:induction false} CorrectedDocumentRoundTrip(d: Doc)
    requires ValidDoc(d)
    ensures CorrectedDocument(d).Ok?
    ensures ParseDocument(CorrectedDocument(d).value) == Ok(d)
  {
    PositiveNoZero(d);
    W.EncodeCompoundSucceeds(d);
    var body := W.EncodeCompound(d).value;
    var data := CorrectedDocument(d).value;
    HeaderRead(data, body);
    CompoundRoundTrip(data, 20, d, body, |data|);
  }

  /** The reader's view of the corrected header, and where the body starts. */
  lemma HeaderRead(data: seq<byte>, body: seq<byte>)
    requires data == CorrectedHeader() + body
    ensures ParseSignature(data, 0) == Ok(Parsed((), 16))
    ensures ParseVersion(data, 16) == Ok(Parsed((), 20))
    ensures At(data, 20, body) && |data| == 20 + |body|
  {
    assert data[0..16] == CorrectedHeader()[..16];
    assert data[16..20] == CorrectedHeader()[16..];
    assert data[20..20 + |body|] == body;
    SliceAt(data, 20, body);
  }

  // --------------------------------------------------------- negative ids

  /** Bit k of x. */
  function Bit(x: nat, k: nat): (b: nat)
    ensures b < 2
  {
    if k == 0 then x % 2 else Bit(x / 2, k - 1)
  }

  /** A bit set in either operand of `|` is set in the result. */
  lemma {:induction false} BitOrHasBit(a: nat, b: nat, bits: nat, k: nat)
    requires k < bits && (Bit(a, k) == 1 || Bit(b, k) == 1)
    ensures Bit(BitOr(a, b, bits), k) == 1
    decreases k
  {
    if k > 0 {
      BitOrHasBit(a / 2, b / 2, bits - 1, k - 1);
    }
  }

  /** A group whose low bit is set, shifted by 3, sets bit 3. */
  lemma ShiftedBit3(m: nat)
    requires m < 0x80 && m % 2 == 1
    ensures Bit(ShiftLeft(m, 3), 3) == 1
  {
    assert Pow2(3) == 8;
    ShiftLeftExact(m, 3);
    assert Bit(m * 8, 3) == Bit(m * 4, 2) == Bit(m * 2, 1) == Bit(m, 0);
  }

  /** The sixth group of a varint is shifted by 35, which Java masks to 3:
      once the do-while has ORed it in, bit 3 of the `int` stays set whatever
      that bit was meant to be. */
  lemma {:induction false} SixthGroupSetsBit3(gs: seq<byte>)
    requires |gs| >= 6 && gs[5] % 2 == 1
    ensures Bit(Combine(gs), 3) == 1
    decreases |gs|
  {
    var prefix := gs[..|gs| - 1];
    assert Combine(gs) == Accumulate(Combine(prefix), gs[|gs| - 1], |gs| - 1);
    if |gs| == 6 {
      SixthGroupBit(Combine(prefix), gs[5]);
    } else {
      assert prefix[5] == gs[5];
      SixthGroupSetsBit3(prefix);
      AccumulateKeepsBit(Combine(prefix), gs[|gs| - 1], |gs| - 1, 3);
    }
  }

  /** ORing in the sixth group, shifted by 35 masked to 3, sets bit 3. */
  lemma SixthGroupBit(value: uint32, b: byte)
    requires b % 2 == 1
    ensures Bit(Accumulate(value, b, 5), 3) == 1
  {
    assert GroupShift(5) == 3;
    ShiftedBit3(b % 0x80);
    BitOrHasBit(value, ShiftLeft(b % 0x80, 3), 32, 3);
  }

  /** ORing in a later group keeps every bit already set. */
  lemma AccumulateKeepsBit(value: uint32, b: byte, index: nat, k: nat)
    requires k < 32 && Bit(value, k) == 1
    ensures Bit(Accumulate(value, b, index), k) == 1
  {
    BitOrHasBit(value, ShiftLeft(b % 0x80, GroupShift(index)), 32, k);
  }

  /** One turn of the encoder's loop on a value of more than seven bits. */
  lemma VarintCons(u: nat, rest: seq<byte>)
    requires u >= 0x80 && W.Varint(u / 0x80) == rest
    ensures W.Varint(u) == [u % 0x80 + 0x80] + rest
  {
  }

  /** The writer's bytes for id -9: the 64-bit view of -9, ten groups. */
  lemma MinusNineBytes()
    ensures W.VarintOf(-9) == [0xF7, 0xFF, 0xFF, 0xFF, 0xFF, 0xFF, 0xFF, 0xFF, 0xFF, 0x01]
  {
    Pow256Widths();
    assert ToUnsigned(-9, 8) == 0xFFFF_FFFF_FFFF_FFF7;
    assert W.Varint(0x1) == [0x01];
    VarintCons(0xFF, [0x01]);
    VarintCons(0x7FFF, [0xFF, 0x01]);
    VarintCons(0x3F_FFFF, [0xFF, 0xFF, 0x01]);
    VarintCons(0x1FFF_FFFF, [0xFF, 0xFF, 0xFF, 0x01]);
    VarintCons(0xF_FFFF_FFFF, [0xFF, 0xFF, 0xFF, 0xFF, 0x01]);
    VarintCons(0x7FF_FFFF_FFFF, [0xFF, 0xFF, 0xFF, 0xFF, 0xFF, 0x01]);
    VarintCons(0x3_FFFF_FFFF_FFFF, [0xFF, 0xFF, 0xFF, 0xFF, 0xFF, 0xFF, 0x01]);
    VarintCons(0x1FF_FFFF_FFFF_FFFF, [0xFF, 0xFF, 0xFF, 0xFF, 0xFF, 0xFF, 0xFF, 0x01]);
    VarintCons(0xFFFF_FFFF_FFFF_FFF7, [0xFF, 0xFF, 0xFF, 0xFF, 0xFF, 0xFF, 0xFF, 0xFF, 0x01]);
  }

  /** `GHDFCompound` accepts a negative id, and the writer emits it, but the
      reader does not return it: the ten bytes written for -9 are all
      consumed and read back as an `int` whose bit 3 is set. */
  lemma NegativeIdMisread()
    ensures ParseVarint(W.VarintOf(-9), 0).Ok?
    ensures ParseVarint(W.VarintOf(-9), 0).value.next == 10
    ensures ParseVarint(W.VarintOf(-9), 0).value.value != -9
  {
    MinusNineBytes();
    var data := W.VarintOf(-9);
    MinusNineEnd(data);
    assert data[0..10] == data;
    SixthGroupSetsBit3(data);
    NotMinusNine(Combine(data));
  }

  /** The do-while stops after the tenth byte of those. */
  lemma MinusNineEnd(data: seq<byte>)
    requires data == [0xF7, 0xFF, 0xFF, 0xFF, 0xFF, 0xFF, 0xFF, 0xFF, 0xFF, 0x01]
    ensures VarintEnd(data, 0) == Ok(10)
  {
    assert data[0..10] == data;
    SliceAt(data, 0, data);
    GroupsEnd(data, 0, data);
  }

  /** An `int` with bit 3 set is not -9, whose pattern has it clear. */
  lemma NotMinusNine(p: uint32)
    requires Bit(p, 3) == 1
    ensures AsInt(p) != -9
  {
    Pow256Widths();
    MinusNinePattern();
  }

  lemma MinusNinePattern()
    ensures Bit(0xFFFF_FFF7, 3) == 0
  {
    assert Bit(0xFFFF_FFF7, 3) == Bit(0x7FFF_FFFB, 2) == Bit(0x3FFF_FFFD, 1) == Bit(0x1FFF_FFFE, 0);
  }

  /** An id as the reader expects it: the varint of its 32-bit pattern, at
      most five bytes. For an id that is not negative these are the bytes
      the writer emits. */
  function IdVarint(id: int32): (bs: seq<byte>)
    ensures 1 <= |bs| <= 5
    ensures id >= 0 ==> bs == W.VarintOf(id)
  {
    IdPattern(id);
    W.Varint(ToUnsigned(id, 4))
  }

  /** The 32-bit pattern of an id takes at most five groups, and is the id
      itself, as is its 64-bit pattern, when the id is not negative. */
  lemma IdPattern(id: int32)
    ensures |W.Varint(ToUnsigned(id, 4))| <= 5
    ensures id >= 0 ==> ToUnsigned(id, 4) == id == ToUnsigned(id, 8)
  {
    Pow256Widths();
    W.Pow128Values();
    W.VarintLength(ToUnsigned(id, 4), 5);
  }

  /** Every id, negative ones included, reads back from its corrected bytes. */
  lemma CorrectedIdRoundTrip(data: seq<byte>, pos: nat, id: int32)
    requires At(data, pos, IdVarint(id))
    ensures ParseVarint(data, pos) == Ok(Parsed(id, pos + |IdVarint(id)|))
  {
    Pow256Widths();
    VarintRoundTrip(data, pos, ToUnsigned(id, 4));
    SignedRoundTrip(id, 4);
  }
}
