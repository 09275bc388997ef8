/** The primary block on the wire: section 4.3.1 of RFC 9171, in its four shapes of 8 to 11 fields. */
module PrimaryCodec {
  import opened Bytes
  import opened Cbor
  import opened Endpoint
  import opened Blocks
  import opened BlockCodec

  function ArraySize(pb: PrimaryBlock): uint64 {
    8 + (if pb.HasFragmentation() then 2 else 0) + (if pb.crcType != CRC_NO then 1 else 0)
  }

  function Start(pb: PrimaryBlock): seq<byte> {
    ArrayHead(ArraySize(pb)) + (UInt(DTN_VERSION) + (UInt(pb.flags) + UInt(pb.crcType)))
  }

  function Endpoints(pb: PrimaryBlock): Option<seq<byte>> {
    var destination :- EncodeEndpoint(pb.destination);
    var source :- EncodeEndpoint(pb.source);
    var reportTo :- EncodeEndpoint(pb.reportTo);
    Some(destination + source + reportTo)
  }

  function EncodeTimestamp(ts: Timestamp): seq<byte> {
    ArrayHead(2) + (UInt(ts.time) + UInt(ts.sequence))
  }

  function Times(pb: PrimaryBlock): seq<byte> {
    EncodeTimestamp(pb.timestamp) + UInt(pb.lifetime)
  }

  function FragmentFields(pb: PrimaryBlock): seq<byte> {
    if pb.HasFragmentation() then UInt(pb.fragmentOffset) + UInt(pb.totalDataLength) else []
  }

  /** The bytes the checksum covers. The version written is always 7. */
  function PrimaryCovered(pb: PrimaryBlock): Option<seq<byte>> {
    var endpoints :- Endpoints(pb);
    Some(Start(pb) + (endpoints + (Times(pb) + FragmentFields(pb))))
  }

  function EncodePrimary(env: Env, pb: PrimaryBlock): (s: Option<seq<byte>>)
    ensures s.Some? <==> PrimaryCovered(pb).Some? && pb.crcType <= CRC_32
  {
    var covered :- PrimaryCovered(pb);
    if pb.crcType <= CRC_32 then Some(covered + CrcField(env, pb.crcType, covered)) else None
  }

  function FilledPrimary(env: Env, pb: PrimaryBlock): PrimaryBlock
    requires EncodePrimary(env, pb).Some?
  {
    pb.(crc := CrcBytes(env, pb.crcType, PrimaryCovered(pb).value).value)
  }

  // ---------------------------------------------------------------- reading

  datatype PrimaryStart = PrimaryStart(size: uint64, flags: uint64, crcType: uint64)

  function DecodeVersion(s: seq<byte>): (p: Parsed<uint64>)
    ensures p.Within(s)
    ensures p.Ok? ==> 8 <= p.value <= 11
  {
    var (size, s1) :- ReadArrayLength(s);
    if !(8 <= size <= 11) then Fail
    else
      var (version, s2) :- ReadUInt(s1);
      if version == DTN_VERSION then Ok(size, s2) else Fail
  }

  function DecodeStart(s: seq<byte>): (p: Parsed<PrimaryStart>)
    ensures p.Within(s)
    ensures p.Ok? ==> 8 <= p.value.size <= 11
  {
    var (size, s1) :- DecodeVersion(s);
    var (fields, s2) :- ReadPair(s1);
    Ok(PrimaryStart(size, fields.0, fields.1), s2)
  }

  datatype Trio = Trio(destination: EndpointID, source: EndpointID, reportTo: EndpointID)

  function DecodeEndpoints(s: seq<byte>): (p: Parsed<Trio>)
    ensures p.Within(s)
  {
    var (destination, s1) :- DecodeEndpoint(s).Wrapped();
    var (source, s2) :- DecodeEndpoint(s1).Wrapped();
    var (reportTo, s3) :- DecodeEndpoint(s2).Wrapped();
    Ok(Trio(destination, source, reportTo), s3)
  }

  function DecodeTimestamp(s: seq<byte>): (p: Parsed<Timestamp>)
    ensures p.Within(s)
  {
    var (n, s1) :- ReadArrayLength(s);
    if n != 2 then Fail
    else
      var (fields, s2) :- ReadPair(s1);
      Ok(Timestamp(fields.0, fields.1), s2)
  }

  function DecodeTimes(s: seq<byte>): (p: Parsed<(Timestamp, uint64)>)
    ensures p.Within(s)
  {
    var (timestamp, s1) :- DecodeTimestamp(s).Wrapped();
    var (lifetime, s2) :- ReadUInt(s1);
    Ok((timestamp, lifetime), s2)
  }

  function DecodeFragmentFields(present: bool, s: seq<byte>): (p: Parsed<(uint64, uint64)>)
    ensures !p.Fail? ==> |p.rest| <= |s|
  {
    if present then ReadPair(s) else Ok((0, 0), s)
  }

  function DecodeAddressing(s: seq<byte>): (p: Parsed<(PrimaryStart, Trio)>)
    ensures p.Within(s)
  {
    var (start, s1) :- DecodeStart(s);
    var (trio, s2) :- DecodeEndpoints(s1);
    Ok((start, trio), s2)
  }

  function DecodeLife(fragment: bool, s: seq<byte>): (p: Parsed<((Timestamp, uint64), (uint64, uint64))>)
    ensures p.Within(s)
  {
    var (times, s1) :- DecodeTimes(s);
    var (frag, s2) :- DecodeFragmentFields(fragment, s1);
    Ok((times, frag), s2)
  }

  /** The array size and all fields but the checksum. */
  function DecodeFields(s: seq<byte>): (p: Parsed<(uint64, PrimaryBlock)>)
    ensures p.Within(s)
  {
    var (addressing, s1) :- DecodeAddressing(s);
    var (start, trio) := addressing;
    var (life, s2) :- DecodeLife(start.size >= 10, s1);
    Ok((start.size, Fields(start, trio, life.0, life.1)), s2)
  }

  function Fields(start: PrimaryStart, trio: Trio, times: (Timestamp, uint64), frag: (uint64, uint64)): PrimaryBlock {
    PrimaryBlock(DTN_VERSION, start.flags, start.crcType, trio.destination, trio.source, trio.reportTo,
                 times.0, times.1, frag.0, frag.1, [])
  }

  /** The checksum is taken over the very bytes that were read. */
  function DecodePrimary(env: Env, s: seq<byte>): (p: Parsed<PrimaryBlock>)
    ensures p.Within(s)
  {
    var (fields, s1) :- DecodeFields(s);
    var (size, pb) := fields;
    var (crc, s2) :- ReadCrc(env, size == 9 || size == 11, pb.crcType, Consumed(s, s1), s1);
    Ok(pb.(crc := crc), s2)
  }

  /** The primary block of a record that was not filled yet. */
  const EMPTY_PRIMARY := PrimaryBlock(0, 0, CRC_NO, DtnNone, DtnNone, DtnNone, Timestamp(0, 0), 0, 0, 0, [])

  /** Fields that an array of this size does not have keep what the record held before. */
  function Over(before: PrimaryBlock, size: uint64, pb: PrimaryBlock): PrimaryBlock {
    pb.(fragmentOffset := if size >= 10 then pb.fragmentOffset else before.fragmentOffset,
        totalDataLength := if size >= 10 then pb.totalDataLength else before.totalDataLength,
        crc := if size == 9 || size == 11 then pb.crc else before.crc)
  }

  /** Reading a primary block into a record that may have been filled before. */
  function DecodePrimaryInto(env: Env, before: PrimaryBlock, s: seq<byte>): (p: Parsed<PrimaryBlock>)
    ensures p.Within(s)
  {
    var (fields, s1) :- DecodeFields(s);
    var (size, pb) := fields;
    var (crc, s2) :- ReadCrc(env, size == 9 || size == 11, pb.crcType, Consumed(s, s1), s1);
    Ok(Over(before, size, pb.(crc := crc)), s2)
  }

  /** Into an empty record it is what a new record would be. */
  lemma DecodeIntoEmpty(env: Env, s: seq<byte>)
    ensures DecodePrimaryInto(env, EMPTY_PRIMARY, s) == DecodePrimary(env, s)
  {
    hide DecodeAddressing, DecodeTimes, ReadPair, CrcBytes, Consumed;
  }

  // ---------------------------------------------------------------- round trips

  lemma StartRoundTrip(pb: PrimaryBlock, t: seq<byte>)
    ensures DecodeStart(Start(pb) + t) == Ok(PrimaryStart(ArraySize(pb), pb.flags, pb.crcType), t)
  {
    hide ReadExpected, ReadPair, UInt, ArrayHead;
    var last := UInt(pb.flags) + UInt(pb.crcType);
    SplitStart(ArrayHead(ArraySize(pb)), UInt(DTN_VERSION), last, t);
    ReadArrayHead(ArraySize(pb), UInt(DTN_VERSION) + (last + t));
    ReadUIntHead(DTN_VERSION, last + t);
    ReadPairHeads(pb.flags, pb.crcType, t);
  }

  lemma SplitStart(a: seq<byte>, b: seq<byte>, c: seq<byte>, t: seq<byte>)
    ensures (a + (b + c)) + t == a + (b + (c + t))
  {
  }

  ghost predicate SizedPrimary(pb: PrimaryBlock) {
    Sized(pb.destination) && Sized(pb.source) && Sized(pb.reportTo)
  }

  lemma EndpointsRoundTrip(pb: PrimaryBlock, t: seq<byte>)
    requires Endpoints(pb).Some? && SizedPrimary(pb)
    ensures var p := DecodeEndpoints(Endpoints(pb).value + t);
            && !p.Break? && (p.Ok? ==> p.rest == t)
            && (p == Ok(Trio(pb.destination, pb.source, pb.reportTo), t)
                <==> WellFormed(pb.destination) && WellFormed(pb.source) && WellFormed(pb.reportTo))
  {
    hide EncodeEndpoint, DecodeEndpoint, WellFormed, Endpoint.CheckValid, Sized;
    EncodesIffValid(pb.destination);
    EncodesIffValid(pb.source);
    EncodesIffValid(pb.reportTo);
    var c := EncodeEndpoint(pb.reportTo).value + t;
    var b := EncodeEndpoint(pb.source).value + c;
    assert Endpoints(pb).value + t == EncodeEndpoint(pb.destination).value + b;
    EndpointRoundTrip(pb.destination, b);
    EndpointRoundTrip(pb.source, c);
    EndpointRoundTrip(pb.reportTo, t);
  }

  lemma TimestampRoundTrip(ts: Timestamp, t: seq<byte>)
    ensures DecodeTimestamp(EncodeTimestamp(ts) + t) == Ok(ts, t)
  {
    hide ReadExpected, ReadPair, UInt, ArrayHead;
    var fields := UInt(ts.time) + UInt(ts.sequence);
    Associative(ArrayHead(2), fields, t);
    ReadArrayHead(2, fields + t);
    ReadPairHeads(ts.time, ts.sequence, t);
  }

  lemma TimesRoundTrip(pb: PrimaryBlock, t: seq<byte>)
    ensures DecodeTimes(Times(pb) + t) == Ok((pb.timestamp, pb.lifetime), t)
  {
    hide EncodeTimestamp, DecodeTimestamp, ReadExpected, UInt;
    Associative(EncodeTimestamp(pb.timestamp), UInt(pb.lifetime), t);
    TimestampRoundTrip(pb.timestamp, UInt(pb.lifetime) + t);
    ReadUIntHead(pb.lifetime, t);
  }

  lemma FragmentFieldsRoundTrip(pb: PrimaryBlock, t: seq<byte>)
    ensures DecodeFragmentFields(pb.HasFragmentation(), FragmentFields(pb) + t)
         == Ok(if pb.HasFragmentation() then (pb.fragmentOffset, pb.totalDataLength) else (0, 0), t)
  {
    hide ReadPair, UInt;
    if pb.HasFragmentation() {
      ReadPairHeads(pb.fragmentOffset, pb.totalDataLength, t);
    } else {
      assert [] + t == t;
    }
  }

  /** Only what the wire carries comes back: version 7, well-formed endpoints, and fragment fields in fragments only. */
  ghost predicate ReadablePrimary(pb: PrimaryBlock) {
    && pb.version == DTN_VERSION
    && WellFormed(pb.destination) && WellFormed(pb.source) && WellFormed(pb.reportTo)
    && (!pb.HasFragmentation() ==> pb.fragmentOffset == 0 && pb.totalDataLength == 0)
  }

  /** A written primary block is read back exactly when it is readable; what follows it is left alone. */
  lemma PrimaryRoundTrip(env: Env, pb: PrimaryBlock, t: seq<byte>)
    requires EncodePrimary(env, pb).Some? && SizedPrimary(pb)
    ensures var p := DecodePrimary(env, EncodePrimary(env, pb).value + t);
            && !p.Break? && (p.Ok? ==> p.rest == t)
            && (p == Ok(FilledPrimary(env, pb), t) <==> ReadablePrimary(pb))
  {
    hide DecodeStart, DecodeEndpoints, DecodeTimes, DecodeFragmentFields, ReadCrc, CrcField, CrcBytes;
    hide Start, Endpoints, Times, FragmentFields, WellFormed, Has, SizedPrimary;
    var covered := PrimaryCovered(pb).value;
    var endpoints := Endpoints(pb).value;
    var s4 := CrcField(env, pb.crcType, covered) + t;
    var s3 := FragmentFields(pb) + s4;
    var s2 := Times(pb) + s3;
    var s1 := endpoints + s2;
    var s := EncodePrimary(env, pb).value + t;
    assert s == covered + s4;
    SplitCovered(Start(pb), endpoints, Times(pb), FragmentFields(pb), s4);
    StartRoundTrip(pb, s1);
    EndpointsRoundTrip(pb, s2);
    TimesRoundTrip(pb, s3);
    FragmentFieldsRoundTrip(pb, s4);
    ConsumedPrefix(covered, s4);
    CrcRoundTrip(env, pb.crcType, covered, t);
  }

  lemma SplitCovered(a: seq<byte>, b: seq<byte>, c: seq<byte>, d: seq<byte>, t: seq<byte>)
    ensures (a + (b + (c + d))) + t == a + (b + (c + (d + t)))
  {
  }
}
