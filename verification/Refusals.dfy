/** What the readers refuse, and what they overlook: wrong lengths, numbers and schemes, bytes behind a value, further payload
    blocks, and, when a bundle is read in part only, wrong checksums of the blocks that are not wanted. */
module Refusals {
  import opened Bytes
  import opened Cbor
  import opened Endpoint
  import opened Blocks
  import opened BlockCodec
  import opened PrimaryCodec
  import opened BundleCodec
  import opened PartialCodec
  import opened Checksums

  // ---------------------------------------------------------------- endpoints and timestamps

  /** An endpoint is an array of two, of a scheme that is known; dtn:none is not spelled out, but any number stands for it. */
  lemma EndpointRefused(n: uint64, scheme: uint64, t: seq<byte>)
    ensures n != 2 ==> DecodeEndpoint(ArrayHead(n) + t) == Fail
    ensures scheme != 1 && scheme != 2 ==> DecodeEndpoint(ArrayHead(2) + (UInt(scheme) + t)) == Fail
  {
    hide ReadExpected, UInt, ArrayHead;
    ReadArrayHead(n, t);
    ReadArrayHead(2, UInt(scheme) + t);
    ReadUIntHead(scheme, t);
  }

  lemma DtnNoneIsANumber(m: uint64, t: seq<byte>)
    ensures DecodeEndpoint(ArrayHead(2) + (UInt(1) + (UInt(m) + t))) == Ok(DtnNone, t)
    ensures DecodeEndpoint(ArrayHead(2) + (UInt(1) + (TextString([0x6E, 0x6F, 0x6E, 0x65]) + t))) == Fail
  {
    hide ReadMajors, Head, ParseDtnSsp;
    ReadArrayHead(2, UInt(1) + (UInt(m) + t));
    ReadUIntHead(1, UInt(m) + t);
    ReadHead(MAJOR_UINT, m, t);
    var none := [0x6E, 0x6F, 0x6E, 0x65];
    ReadArrayHead(2, UInt(1) + (TextString(none) + t));
    ReadUIntHead(1, TextString(none) + t);
    Associative(Head(MAJOR_TEXT, 4), none, t);
    ReadHead(MAJOR_TEXT, 4, none + t);
    assert ReadRaw(4, none + t) == Ok(none, t);
    assert ParseDtnSsp(none) == Some(DtnNone) by { ParseNone(); }
  }

  lemma IpnRefused(n: uint64, t: seq<byte>)
    requires n != 2
    ensures DecodeEndpoint(ArrayHead(2) + (UInt(2) + (ArrayHead(n) + t))) == Fail
  {
    hide ReadExpected, UInt, ArrayHead;
    ReadArrayHead(2, UInt(2) + (ArrayHead(n) + t));
    ReadUIntHead(2, ArrayHead(n) + t);
    ReadArrayHead(n, t);
  }

  lemma TimestampRefused(n: uint64, t: seq<byte>)
    requires n != 2
    ensures DecodeTimestamp(ArrayHead(n) + t) == Fail
  {
    hide ReadExpected, ArrayHead;
    ReadArrayHead(n, t);
  }

  // ---------------------------------------------------------------- blocks

  /** A canonical block has five or six elements. */
  lemma BlockSizeRefused(env: Env, n: uint64, t: seq<byte>)
    requires n != 5 && n != 6
    ensures DecodeCanonical(env, ArrayHead(n) + t) == Fail
  {
    hide ReadExpected, ArrayHead, DecodeBody;
    ReadArrayHead(n, t);
  }

  /** A primary block has eight to eleven elements, and is of version 7. */
  lemma PrimaryRefused(env: Env, n: uint64, version: uint64, t: seq<byte>)
    requires !(8 <= n <= 11) || version != 7
    ensures DecodePrimary(env, ArrayHead(n) + (UInt(version) + t)) == Fail
  {
    hide ReadExpected, ReadPair, ArrayHead, UInt, DecodeEndpoints, DecodeLife, ReadCrc;
    ReadArrayHead(n, UInt(version) + t);
    ReadUIntHead(version, t);
  }

  /** A hop count is an array of two numbers of one byte each; what follows is overlooked. */
  lemma HopCountExactly(n: uint64, limit: uint64, count: uint64, t: seq<byte>)
    ensures DecodeHopCount(ArrayHead(n) + ((UInt(limit) + UInt(count)) + t))
         == if n == 2 && limit <= 255 && count <= 255 then Some(HopCount(limit, count)) else None
  {
    hide ReadExpected, ReadPair, ArrayHead, UInt;
    ReadArrayHead(n, (UInt(limit) + UInt(count)) + t);
    ReadPairHeads(limit, count, t);
  }

  /** Bytes behind the item in a typed block are overlooked. */
  lemma BehindValue(env: Env, v: ExtensionBlock, t: seq<byte>)
    requires MarshalValue(v).Some? && SizedValue(v) && Readable(env, v) && !v.Generic? && !v.PayloadBlock?
    ensures UnmarshalValue(env, v.TypeCode(), MarshalValue(v).value + t) == Some(v)
  {
    hide ReadExpected, UInt, ArrayHead, EncodeEndpoint, DecodeEndpoint, DecodeHopCount, WellFormed, Endpoint.CheckValid;
    match v
    case PreviousNode(e) =>
      EncodesIffValid(e);
      EndpointRoundTrip(e, t);
    case BundleAge(ms) => ReadUIntHead(ms, t);
    case HopCount(limit, count) =>
      Associative(ArrayHead(2), UInt(limit) + UInt(count), t);
      HopCountExactly(2, limit, count, t);
    case BinarySpray(copies) => ReadUIntHead(copies, t);
  }

  /** By default payload, previous node, age and hop count blocks are read as such, and all others as they are. */
  lemma DefaultBlockTypes(env: Env, code: uint64, data: seq<byte>)
    requires env.registry == DEFAULT_REGISTRY
    ensures var v := UnmarshalValue(env, code, data);
            if code == 1 || code == 6 || code == 7 || code == 10 then v.Some? ==> !v.value.Generic? else v == Some(Generic(code, data))
  {
    hide ReadExpected, DecodeEndpoint, DecodeHopCount;
  }

  // ---------------------------------------------------------------- several payload blocks

  /** Of several payload blocks the last one is the bundle's. */
  lemma {:induction false} LastPayloadExactly(blocks: seq<CanonicalBlock>, k: nat)
    requires k < |blocks| && blocks[k].TypeCode() == TYPE_PAYLOAD
    requires forall j :: k < j < |blocks| ==> blocks[j].TypeCode() != TYPE_PAYLOAD
    ensures LastPayload(blocks) == Some(blocks[k])
  {
    if k < |blocks| - 1 {
      LastPayloadExactly(blocks[..|blocks| - 1], k);
    }
  }

  // ---------------------------------------------------------------- reading in part

  /** Nothing invalid is handed out. */
  lemma PartialIsValid(env: Env, s: seq<byte>, wanted: seq<uint64>, seekable: bool)
    requires ParsePartial(env, s, wanted, seekable).Some?
    ensures var pb := ParsePartial(env, s, wanted, seekable).value;
            pb.primary.CheckValid() && forall cb :: cb in pb.extensions ==> cb.CheckValid() && cb.TypeCode() != TYPE_PAYLOAD
  {
    hide DecodePrimary, PartialBlocks;
    var p := DecodePrimary(env, s[1..]);
    NoPayload(env, p.rest, wanted, seekable);
  }

  lemma {:induction false} NoPayload(env: Env, s: seq<byte>, wanted: seq<uint64>, seekable: bool)
    ensures var p := PartialBlocks(env, s, wanted, seekable);
            p.Some? ==> forall cb :: cb in p.value ==> cb.TypeCode() != TYPE_PAYLOAD
    decreases |s|
  {
    hide DecodeWanted, Remove;
    match DecodeWanted(env, s, wanted, seekable)
    case Stop =>
    case Abort =>
    case Skipped(code, rest) => NoPayload(env, rest, wanted, seekable);
    case Read(cb, rest) =>
      if cb.TypeCode() != TYPE_PAYLOAD {
        NoPayload(env, rest, Remove(wanted, cb.TypeCode()), seekable);
      }
  }

  /** A written block with another checksum than its own: one that is not wanted is skipped all the same; of the others an
      extension block fails the parse, and a payload block just ends it. */
  lemma CorruptedInPart(env: Env, cb: CanonicalBlock, c: seq<byte>, t: seq<byte>, wanted: seq<uint64>, seekable: bool)
    requires EncodeCanonical(env, cb).Some? && SizedValue(cb.value) && Readable(env, cb.value)
    requires (cb.crcType == 1 || cb.crcType == 2) && |c| < TWO_TO_THE_64
    requires |MarshalValue(cb.value).value| < INT64_LIMIT && c != Checksum(env, cb.crcType, CanonicalCovered(cb).value)
    ensures DecodeWanted(env, CanonicalCovered(cb).value + ByteString(c) + t, wanted, seekable)
         == if cb.TypeCode() !in wanted then Skipped(cb.TypeCode(), t) else if cb.TypeCode() == 1 then Stop else Abort
  {
    hide DecodeSize, DecodeHead, ReadBlock, ReadCrc, SkipBlock, MarshalValue, CanonicalHead, ByteString, ArrayHead, Checksum;
    var covered := CanonicalCovered(cb).value;
    var data := MarshalValue(cb.value).value;
    var s2 := ByteString(c) + t;
    var s1 := ByteString(data) + s2;
    var s0 := CanonicalHead(cb) + s1;
    assert covered + ByteString(c) + t == ArrayHead(BlockCodec.ArraySize(cb)) + s0;
    SizeRoundTrip(cb, s0);
    HeadRoundTrip(cb, s1);
    ReadBlockRoundTrip(env, cb.value, s2);
    assert s0 == (CanonicalHead(cb) + ByteString(data)) + s2;
    ConsumedPrefix(CanonicalHead(cb) + ByteString(data), s2);
    OtherCrcFails(env, cb.crcType, covered, c, t);
    SkippedData(cb.TypeCode(), data, c, t, seekable);
  }

  lemma SkippedData(code: uint64, data: seq<byte>, c: seq<byte>, t: seq<byte>, seekable: bool)
    requires |data| < INT64_LIMIT && |c| < TWO_TO_THE_64
    ensures SkipBlock(6, code, seekable, ByteString(data) + (ByteString(c) + t)) == Skipped(code, t)
  {
    hide ReadExpected, ReadByteString, Head;
    var s2 := ByteString(c) + t;
    Associative(Head(MAJOR_BYTES, |data|), data, s2);
    ReadBytesHead(|data|, data + s2);
    assert (data + s2)[|data|..] == s2;
    ByteStringRoundTrip(c, t);
  }

  /** A stream that ends within the data of a block that is not wanted: seeking goes past the end, and only copying notices. */
  lemma CutWithinSkipped(code: uint64, n: uint64, part: seq<byte>, seekable: bool)
    requires |part| < n < INT64_LIMIT
    ensures SkipBlock(5, code, seekable, Head(MAJOR_BYTES, n) + part) == if seekable then Skipped(code, []) else Abort
  {
    hide ReadExpected, Head;
    ReadBytesHead(n, part);
  }

  /** A length of 2^63 or more is negative as an int64, and copying so many bytes skips nothing. */
  lemma HugeLengthSkipsNothing(code: uint64, n: uint64, t: seq<byte>)
    requires n >= INT64_LIMIT
    ensures SkipBlock(5, code, false, Head(MAJOR_BYTES, n) + t) == Skipped(code, t)
  {
    hide ReadExpected, Head;
    ReadBytesHead(n, t);
  }

  /** A block of another size fails the parse, wanted or not. */
  lemma BlockSizeRefusedInPart(env: Env, n: uint64, t: seq<byte>, wanted: seq<uint64>, seekable: bool)
    requires n != 5 && n != 6
    ensures DecodeWanted(env, ArrayHead(n) + t, wanted, seekable) == Abort
  {
    hide ReadExpected, ArrayHead, DecodeHead, ReadWanted, SkipBlock;
    ReadArrayHead(n, t);
  }

  // ---------------------------------------------------------------- records that are used again

  /** A written primary block read into a record that was filled before: fields that the array does not have, which are offset
      and total of a whole bundle, and a checksum, keep what was there. */
  lemma IntoUsedRecord(env: Env, before: PrimaryBlock, pb: PrimaryBlock, t: seq<byte>)
    requires EncodePrimary(env, pb).Some? && SizedPrimary(pb) && ReadablePrimary(pb)
    ensures var filled := FilledPrimary(env, pb);
            DecodePrimaryInto(env, before, EncodePrimary(env, pb).value + t)
            == Ok(filled.(fragmentOffset := if pb.flags % 2 == 1 then pb.fragmentOffset else before.fragmentOffset,
                          totalDataLength := if pb.flags % 2 == 1 then pb.totalDataLength else before.totalDataLength,
                          crc := if pb.crcType == 0 then before.crc else filled.crc), t)
  {
    hide EncodePrimary, DecodeFields, ReadCrc, Consumed, FilledPrimary, SizedPrimary, ReadExpected;
    var s := EncodePrimary(env, pb).value + t;
    PrimaryRoundTrip(env, pb, t);
    SizeIsRead(env, pb, t);
    FieldsStart(s);
    SameButChecksum(env, pb);
  }

  lemma SizeIsRead(env: Env, pb: PrimaryBlock, t: seq<byte>)
    requires EncodePrimary(env, pb).Some?
    ensures var p := ReadArrayLength(EncodePrimary(env, pb).value + t);
            p.Ok? && p.value == PrimaryCodec.ArraySize(pb)
  {
    hide ReadExpected, ArrayHead, UInt, Endpoints, Times, FragmentFields, CrcField;
    var s := EncodePrimary(env, pb).value + t;
    var head := ArrayHead(PrimaryCodec.ArraySize(pb));
    assert head <= EncodePrimary(env, pb).value;
    assert s == head + s[|head|..];
    ReadArrayHead(PrimaryCodec.ArraySize(pb), s[|head|..]);
  }

  lemma SameButChecksum(env: Env, pb: PrimaryBlock)
    requires EncodePrimary(env, pb).Some?
    ensures FilledPrimary(env, pb) == pb.(crc := FilledPrimary(env, pb).crc)
  {
    hide PrimaryCovered, CrcBytes;
  }
}
