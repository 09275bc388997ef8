/** Canonical blocks on the wire: section 4.3.2 of RFC 9171, with the CRC rules of section 4.2.1. */
module BlockCodec {
  import opened Bytes
  import opened Cbor
  import opened Endpoint
  import opened Blocks

  // ---------------------------------------------------------------- CRC

  /** The checksum of the covered bytes followed by a zeroed CRC field, big-endian. */
  function CrcBytes(env: Env, crcType: uint64, covered: seq<byte>): (c: Option<seq<byte>>)
    ensures c.Some? <==> crcType <= CRC_32
    ensures c.Some? ==> |c.value| == CrcLength(crcType)
  {
    if crcType == CRC_NO then Some([])
    else if crcType == CRC_16 then Some(BigEndian(env.crc16(covered + ByteString([0, 0])), 2))
    else if crcType == CRC_32 then Some(BigEndian(env.crc32(covered + ByteString([0, 0, 0, 0])), 4))
    else None
  }

  function CrcLength(crcType: uint64): nat {
    if crcType == CRC_NO then 0 else if crcType == CRC_16 then 2 else 4
  }

  /** The CRC field of a block that has one. */
  function ReadCrc(env: Env, present: bool, crcType: uint64, covered: seq<byte>, s: seq<byte>): (p: Parsed<seq<byte>>)
    ensures !p.Fail? ==> |p.rest| <= |s|
  {
    if !present then Ok([], s)
    else if crcType > CRC_32 then Fail
    else
      var (c, rest) :- ReadByteString(s);
      if c == CrcBytes(env, crcType, covered).value then Ok(c, rest) else Fail
  }

  /** What follows the covered bytes of a block: nothing, or the checksum. */
  function CrcField(env: Env, crcType: uint64, covered: seq<byte>): seq<byte>
    requires crcType <= CRC_32
  {
    if crcType == CRC_NO then [] else ByteString(CrcBytes(env, crcType, covered).value)
  }

  lemma CrcRoundTrip(env: Env, crcType: uint64, covered: seq<byte>, t: seq<byte>)
    requires crcType <= CRC_32
    ensures ReadCrc(env, crcType != CRC_NO, crcType, covered, CrcField(env, crcType, covered) + t)
         == Ok(CrcBytes(env, crcType, covered).value, t)
  {
    hide CrcBytes, ReadByteString;
    if crcType == CRC_NO {
      assert [] + t == t;
      var c := CrcBytes(env, crcType, covered).value;
      assert |c| == 0;
    } else {
      ByteStringRoundTrip(CrcBytes(env, crcType, covered).value, t);
    }
  }

  // ---------------------------------------------------------------- block-type-specific data

  /** The bytes inside a block's byte string; an invalid endpoint cannot be written. */
  function MarshalValue(v: ExtensionBlock): Option<seq<byte>> {
    match v
    case PayloadBlock(data) => Some(data)
    case Generic(_, data) => Some(data)
    case PreviousNode(e) => EncodeEndpoint(e)
    case BundleAge(ms) => Some(UInt(ms))
    case HopCount(limit, count) => Some(ArrayHead(2) + (UInt(limit) + UInt(count)))
    case BinarySpray(copies) => Some(UInt(copies))
  }

  function DecodeHopCount(data: seq<byte>): (v: Option<ExtensionBlock>)
    ensures v.Some? ==> v.value.HopCount?
  {
    var n := ReadArrayLength(data);
    if !n.Ok? || n.value != 2 then None
    else
      var fields := ReadPair(n.rest);
      if !fields.Ok? || fields.value.0 > 255 || fields.value.1 > 255 then None
      else Some(HopCount(fields.value.0, fields.value.1))
  }

  /** The registered type for the code, or a generic block. Bytes after a typed block's CBOR item are ignored. */
  function UnmarshalValue(env: Env, code: uint64, data: seq<byte>): (v: Option<ExtensionBlock>)
    ensures v.Some? ==> v.value.TypeCode() == code
  {
    if code !in env.registry then Some(Generic(code, data))
    else if code == TYPE_PAYLOAD then Some(PayloadBlock(data))
    else if code == TYPE_PREVIOUS_NODE then
      var p := DecodeEndpoint(data);
      if p.Ok? then Some(PreviousNode(p.value)) else None
    else if code == TYPE_BUNDLE_AGE then
      var p := ReadUInt(data);
      if p.Ok? then Some(BundleAge(p.value)) else None
    else if code == TYPE_HOP_COUNT then DecodeHopCount(data)
    else if code == TYPE_BINARY_SPRAY then
      var p := ReadUInt(data);
      if p.Ok? then Some(BinarySpray(p.value)) else None
    else None
  }

  /** Whether a node with this registry gets the value back: typed blocks need their type registered, generic blocks
      need theirs not to be, and an endpoint must be well-formed. */
  ghost predicate Readable(env: Env, v: ExtensionBlock) {
    && (v.Generic? <==> v.TypeCode() !in env.registry)
    && (v.PreviousNode? ==> WellFormed(v.endpoint))
  }

  ghost predicate SizedValue(v: ExtensionBlock) {
    && (v.PreviousNode? ==> Sized(v.endpoint))
    && (MarshalValue(v).Some? ==> |MarshalValue(v).value| < TWO_TO_THE_64)
  }

  lemma ReadUIntAlone(n: uint64)
    ensures ReadUInt(UInt(n)) == Ok(n, [])
  {
    ReadUIntHead(n, []);
    assert UInt(n) + [] == UInt(n);
  }

  lemma HopCountRoundTrip(limit: byte, count: byte)
    ensures DecodeHopCount(ArrayHead(2) + (UInt(limit) + UInt(count))) == Some(HopCount(limit, count))
  {
    hide ReadExpected, ReadPair, UInt, ArrayHead;
    var fields := UInt(limit) + UInt(count);
    assert fields + [] == fields;
    ReadArrayHead(2, fields);
    ReadPairHeads(limit, count, []);
  }

  lemma ValueRoundTrip(env: Env, v: ExtensionBlock)
    requires SizedValue(v) && MarshalValue(v).Some?
    ensures UnmarshalValue(env, v.TypeCode(), MarshalValue(v).value) == Some(v) <==> Readable(env, v)
  {
    hide ReadExpected, UInt, ArrayHead, EncodeEndpoint, DecodeEndpoint, DecodeHopCount;
    match v
    case PayloadBlock(_) =>
    case Generic(_, _) =>
    case PreviousNode(e) =>
      assert EncodeEndpoint(e).Some? <==> Endpoint.CheckValid(e) by { EncodesIffValid(e); }
      EndpointRoundTrip(e, []);
      assert EncodeEndpoint(e).value + [] == EncodeEndpoint(e).value;
    case BundleAge(ms) => ReadUIntAlone(ms);
    case HopCount(limit, count) => HopCountRoundTrip(limit, count);
    case BinarySpray(copies) => ReadUIntAlone(copies);
  }

  lemma EncodesIffValid(e: EndpointID)
    ensures EncodeEndpoint(e).Some? <==> Endpoint.CheckValid(e)
  {
  }

  /** The spray block that binary Spray-and-Wait attaches keeps its meaning only where type 192 was registered, and it
      is not among the types registered by default. */
  lemma SprayBlockNeedsRegistration(env: Env, copies: uint64)
    ensures var read := UnmarshalValue(env, TYPE_BINARY_SPRAY, UInt(copies));
            && (read == Some(BinarySpray(copies)) <==> TYPE_BINARY_SPRAY in env.registry)
            && (env.registry == DEFAULT_REGISTRY ==> read == Some(Generic(TYPE_BINARY_SPRAY, UInt(copies))))
  {
    ReadUIntAlone(copies);
    ValueRoundTrip(env, BinarySpray(copies));
  }

  // ---------------------------------------------------------------- canonical blocks

  function CanonicalHead(cb: CanonicalBlock): seq<byte> {
    (UInt(cb.TypeCode()) + UInt(cb.number)) + (UInt(cb.flags) + UInt(cb.crcType))
  }

  function ArraySize(cb: CanonicalBlock): uint64 {
    if cb.crcType == CRC_NO then 5 else 6
  }

  /** The bytes the checksum of a block covers. */
  function CanonicalCovered(cb: CanonicalBlock): Option<seq<byte>> {
    var data :- MarshalValue(cb.value);
    Some(ArrayHead(ArraySize(cb)) + (CanonicalHead(cb) + ByteString(data)))
  }

  function EncodeCanonical(env: Env, cb: CanonicalBlock): (s: Option<seq<byte>>)
    ensures s.Some? <==> CanonicalCovered(cb).Some? && cb.crcType <= CRC_32
  {
    var covered :- CanonicalCovered(cb);
    if cb.crcType <= CRC_32 then Some(covered + CrcField(env, cb.crcType, covered)) else None
  }

  /** The block with the checksum it carries on the wire; a reader leaves the field empty when there is none. */
  function Filled(env: Env, cb: CanonicalBlock): CanonicalBlock
    requires EncodeCanonical(env, cb).Some?
  {
    cb.(crc := CrcBytes(env, cb.crcType, CanonicalCovered(cb).value).value)
  }

  datatype BlockHead = BlockHead(code: uint64, number: uint64, flags: uint64, crcType: uint64)

  function DecodeHead(s: seq<byte>): (p: Parsed<BlockHead>)
    ensures p.Within(s)
  {
    var (first, s1) :- ReadPair(s);
    var (second, s2) :- ReadPair(s1);
    Ok(BlockHead(first.0, first.1, second.0, second.1), s2)
  }

  function ReadBlock(env: Env, code: uint64, s: seq<byte>): (p: Parsed<ExtensionBlock>)
    ensures p.Within(s)
    ensures p.Ok? ==> p.value.TypeCode() == code
  {
    var (data, rest) :- ReadByteString(s);
    var v := UnmarshalValue(env, code, data);
    if v.Some? then Ok(v.value, rest) else Fail
  }

  function DecodeSize(s: seq<byte>): (p: Parsed<uint64>)
    ensures p.Within(s)
    ensures p.Ok? ==> p.value in {5, 6}
  {
    var (size, rest) :- ReadArrayLength(s);
    if size == 5 || size == 6 then Ok(size, rest) else Fail
  }

  /** The array head is replayed into the CRC buffer in its shortest form, whatever form was read. */
  function DecodeBody(env: Env, size: uint64, s0: seq<byte>): (p: Parsed<CanonicalBlock>)
    ensures p.Within(s0)
  {
    var (head, s1) :- DecodeHead(s0);
    var (v, s2) :- ReadBlock(env, head.code, s1).Wrapped();
    var (crc, s3) :- ReadCrc(env, size == 6, head.crcType, ArrayHead(size) + Consumed(s0, s2), s2);
    Ok(CanonicalBlock(head.number, head.flags, head.crcType, crc, v), s3)
  }

  function DecodeCanonical(env: Env, s: seq<byte>): (p: Parsed<CanonicalBlock>)
    ensures p.Within(s)
  {
    var (size, s0) :- DecodeSize(s);
    DecodeBody(env, size, s0)
  }

  lemma HeadRoundTrip(cb: CanonicalBlock, t: seq<byte>)
    ensures DecodeHead(CanonicalHead(cb) + t) == Ok(BlockHead(cb.TypeCode(), cb.number, cb.flags, cb.crcType), t)
  {
    hide ReadPair, UInt;
    var first, second := UInt(cb.TypeCode()) + UInt(cb.number), UInt(cb.flags) + UInt(cb.crcType);
    Associative(first, second, t);
    ReadPairHeads(cb.TypeCode(), cb.number, second + t);
    ReadPairHeads(cb.flags, cb.crcType, t);
  }

  lemma ReadBlockRoundTrip(env: Env, v: ExtensionBlock, t: seq<byte>)
    requires SizedValue(v) && MarshalValue(v).Some?
    ensures var p := ReadBlock(env, v.TypeCode(), ByteString(MarshalValue(v).value) + t);
            !p.Break? && (p == Ok(v, t) <==> Readable(env, v)) && (p.Ok? ==> p.rest == t)
  {
    hide MarshalValue, UnmarshalValue, ReadByteString, ByteString;
    ByteStringRoundTrip(MarshalValue(v).value, t);
    ValueRoundTrip(env, v);
  }

  lemma SizeRoundTrip(cb: CanonicalBlock, t: seq<byte>)
    ensures DecodeSize(ArrayHead(ArraySize(cb)) + t) == Ok(ArraySize(cb), t)
  {
    ReadArrayHead(ArraySize(cb), t);
  }

  /** A written block is read back, up to its checksum field, exactly when its value is readable; what follows it is left alone. */
  lemma CanonicalRoundTrip(env: Env, cb: CanonicalBlock, t: seq<byte>)
    requires EncodeCanonical(env, cb).Some? && SizedValue(cb.value)
    ensures var p := DecodeCanonical(env, EncodeCanonical(env, cb).value + t);
            && !p.Break?
            && (p == Ok(Filled(env, cb), t) <==> Readable(env, cb.value))
            && (p.Ok? ==> p.rest == t && p.value.TypeCode() == cb.TypeCode())
  {
    hide DecodeSize, DecodeHead, ReadBlock, ReadCrc, CrcField, CrcBytes, MarshalValue, CanonicalHead, ByteString, ArrayHead, Readable;
    var covered := CanonicalCovered(cb).value;
    var data := MarshalValue(cb.value).value;
    var crcField := CrcField(env, cb.crcType, covered);
    var s2 := crcField + t;
    var s1 := ByteString(data) + s2;
    var s0 := CanonicalHead(cb) + s1;
    assert EncodeCanonical(env, cb).value + t == ArrayHead(ArraySize(cb)) + s0;
    SizeRoundTrip(cb, s0);
    HeadRoundTrip(cb, s1);
    ReadBlockRoundTrip(env, cb.value, s2);
    assert s0 == (CanonicalHead(cb) + ByteString(data)) + s2;
    ConsumedPrefix(CanonicalHead(cb) + ByteString(data), s2);
    CrcRoundTrip(env, cb.crcType, covered, t);
  }
}
