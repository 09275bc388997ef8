/** The blocks of a bundle as values, their control flags and their validity rules (section 4 of RFC 9171). */
module Blocks {
  import opened Bytes
  import opened Endpoint

  const DTN_VERSION: uint64 := 7

  const TYPE_PAYLOAD: uint64 := 1
  const TYPE_PREVIOUS_NODE: uint64 := 6
  const TYPE_BUNDLE_AGE: uint64 := 7
  const TYPE_HOP_COUNT: uint64 := 10
  const TYPE_BINARY_SPRAY: uint64 := 192

  /** The block types registered when the extension block manager is created. */
  const DEFAULT_REGISTRY: set<uint64> := {TYPE_PAYLOAD, TYPE_PREVIOUS_NODE, TYPE_BUNDLE_AGE, TYPE_HOP_COUNT}

  const CRC_NO: uint64 := 0
  const CRC_16: uint64 := 1
  const CRC_32: uint64 := 2

  const IS_FRAGMENT: uint64 := 0x000001
  const ADMINISTRATIVE_RECORD: uint64 := 0x000002
  const MUST_NOT_FRAGMENT: uint64 := 0x000004
  const STATUS_RECEPTION: uint64 := 0x004000
  const STATUS_FORWARD: uint64 := 0x010000
  const STATUS_DELIVERY: uint64 := 0x020000
  const STATUS_DELETION: uint64 := 0x040000

  const REPLICATE_BLOCK: uint64 := 0x01
  const STATUS_REPORT_BLOCK: uint64 := 0x02

  /** Everything the codec depends on and does not define: the two checksums, the registered block types, and whether
      a bundle created at a given time with a given lifetime has expired by now. */
  datatype Env = Env(
    crc16: seq<byte> -> uint16,
    crc32: seq<byte> -> uint32,
    registry: set<uint64>,
    expired: (uint64, uint64) -> bool)

  /** `flags & mask != 0` for a mask of one bit. */
  predicate Has(flags: uint64, mask: uint64)
    requires mask > 0
  {
    flags / mask % 2 == 1
  }

  datatype ExtensionBlock =
    | PayloadBlock(data: seq<byte>)
    | PreviousNode(endpoint: EndpointID)
    | BundleAge(ms: uint64)
    | HopCount(limit: byte, count: byte)
    | BinarySpray(copies: uint64)
    | Generic(code: uint64, data: seq<byte>)
  {
    function TypeCode(): uint64 {
      match this
      case PayloadBlock(_) => TYPE_PAYLOAD
      case PreviousNode(_) => TYPE_PREVIOUS_NODE
      case BundleAge(_) => TYPE_BUNDLE_AGE
      case HopCount(_, _) => TYPE_HOP_COUNT
      case BinarySpray(_) => TYPE_BINARY_SPRAY
      case Generic(code, _) => code
    }

    predicate CheckValid() {
      match this
      case PreviousNode(e) => Endpoint.CheckValid(e)
      case HopCount(limit, count) => count <= limit
      case _ => true
    }
  }

  datatype CanonicalBlock = CanonicalBlock(number: uint64, flags: uint64, crcType: uint64, crc: seq<byte>, value: ExtensionBlock)
  {
    function TypeCode(): uint64 {
      value.TypeCode()
    }

    predicate CheckValid() {
      value.CheckValid() && (TypeCode() == TYPE_PAYLOAD ==> number == 1)
    }
  }

  datatype Timestamp = Timestamp(time: uint64, sequence: uint64)

  datatype PrimaryBlock = PrimaryBlock(
    version: uint64,
    flags: uint64,
    crcType: uint64,
    destination: EndpointID,
    source: EndpointID,
    reportTo: EndpointID,
    timestamp: Timestamp,
    lifetime: uint64,
    fragmentOffset: uint64,
    totalDataLength: uint64,
    crc: seq<byte>)
  {
    predicate HasFragmentation() {
      Has(flags, IS_FRAGMENT)
    }

    predicate NoStatusRequests() {
      !Has(flags, STATUS_RECEPTION) && !Has(flags, STATUS_FORWARD) && !Has(flags, STATUS_DELIVERY) && !Has(flags, STATUS_DELETION)
    }

    predicate CheckValid() {
      && version == DTN_VERSION
      && !(Has(flags, IS_FRAGMENT) && Has(flags, MUST_NOT_FRAGMENT))
      && (Has(flags, ADMINISTRATIVE_RECORD) ==> NoStatusRequests())
      && Endpoint.CheckValid(destination) && Endpoint.CheckValid(source) && Endpoint.CheckValid(reportTo)
      && (source == DtnNone ==> Has(flags, MUST_NOT_FRAGMENT) && NoStatusRequests())
    }
  }

  datatype Bundle = Bundle(primary: PrimaryBlock, extensions: seq<CanonicalBlock>, payload: CanonicalBlock)

  /** The blocks of one type, in order: ExtensionBlocksByType. */
  function OfType(blocks: seq<CanonicalBlock>, code: uint64): (r: seq<CanonicalBlock>)
    ensures forall cb :: cb in r <==> cb in blocks && cb.TypeCode() == code
  {
    if blocks == [] then []
    else
      assert blocks == [blocks[0]] + blocks[1..];
      (if blocks[0].TypeCode() == code then [blocks[0]] else []) + OfType(blocks[1..], code)
  }

  predicate DistinctNumbers(blocks: seq<CanonicalBlock>) {
    forall i, j :: 0 <= i < j < |blocks| ==> blocks[i].number != blocks[j].number
  }

  /** Previous node, age and hop count blocks tolerate no second block of their type. */
  predicate ContextValid(blocks: seq<CanonicalBlock>, v: ExtensionBlock) {
    v.PreviousNode? || v.BundleAge? || v.HopCount? ==> |OfType(blocks, v.TypeCode())| == 1
  }

  /** A bundle from a node without a clock is judged by its age block, any other one by the clock. */
  predicate LifetimeExceeded(env: Env, b: Bundle) {
    if b.primary.timestamp.time == 0 then
      var ages := OfType(b.extensions, TYPE_BUNDLE_AGE);
      |ages| != 1 || !ages[0].value.BundleAge? || ages[0].value.ms > b.primary.lifetime
    else env.expired(b.primary.timestamp.time, b.primary.lifetime)
  }

  predicate ExtensionsValid(blocks: seq<CanonicalBlock>) {
    && (forall i :: 0 <= i < |blocks| ==> blocks[i].CheckValid())
    && DistinctNumbers(blocks)
    && (forall i :: 0 <= i < |blocks| ==> ContextValid(blocks, blocks[i].value))
  }

  predicate PayloadValid(payload: CanonicalBlock) {
    payload.CheckValid() && !Has(payload.flags, STATUS_REPORT_BLOCK)
  }

  predicate TimeValid(env: Env, b: Bundle) {
    && (b.primary.timestamp.time == 0 ==> OfType(b.extensions, TYPE_BUNDLE_AGE) != [])
    && !LifetimeExceeded(env, b)
  }

  predicate CheckBundle(env: Env, b: Bundle) {
    b.primary.CheckValid() && ExtensionsValid(b.extensions) && PayloadValid(b.payload) && TimeValid(env, b)
  }

  // ---------------------------------------------------------------- what validity depends on

  /** Equal block values, position by position; numbers, flags and checksums may differ. */
  ghost predicate SameValues(a: seq<CanonicalBlock>, b: seq<CanonicalBlock>) {
    |a| == |b| && forall i :: 0 <= i < |a| ==> a[i].value == b[i].value
  }

  lemma {:induction false} OfTypeSameValues(a: seq<CanonicalBlock>, b: seq<CanonicalBlock>, code: uint64)
    requires SameValues(a, b)
    ensures SameValues(OfType(a, code), OfType(b, code))
  {
    if a != [] {
      OfTypeSameValues(a[1..], b[1..], code);
    }
  }

  lemma ContextSameValues(a: seq<CanonicalBlock>, b: seq<CanonicalBlock>, v: ExtensionBlock)
    requires SameValues(a, b)
    ensures ContextValid(a, v) <==> ContextValid(b, v)
  {
    hide OfType;
    OfTypeSameValues(a, b, v.TypeCode());
  }

  /** Two bundles with the same extension values are both in time or both not. */
  lemma TimeSameValues(env: Env, b: Bundle, c: Bundle)
    requires b.primary.timestamp == c.primary.timestamp && b.primary.lifetime == c.primary.lifetime
    requires SameValues(b.extensions, c.extensions)
    ensures TimeValid(env, b) <==> TimeValid(env, c)
  {
    hide OfType;
    OfTypeSameValues(b.extensions, c.extensions, TYPE_BUNDLE_AGE);
  }

  /** Renumbering, flags and checksums do not matter to the validity of extension blocks, as long as the numbers stay
      distinct and no block is of the payload type. */
  lemma ExtensionsSameValues(a: seq<CanonicalBlock>, b: seq<CanonicalBlock>)
    requires SameValues(a, b) && ExtensionsValid(a) && DistinctNumbers(b)
    requires forall i :: 0 <= i < |b| ==> b[i].TypeCode() == TYPE_PAYLOAD ==> b[i].number == 1
    ensures ExtensionsValid(b)
  {
    hide ContextValid, OfType;
    forall i | 0 <= i < |b| ensures b[i].CheckValid() && ContextValid(b, b[i].value) {
      assert a[i].CheckValid();
      ContextSameValues(a, b, b[i].value);
    }
  }
}
