/** The wire form as the standards give it: trees of CBOR data items, serialised in the shortest form (section 4.2.1 of
    RFC 8949), and the items of blocks and bundles (section 4 of RFC 9171), with all numbers spelled out. The encoders are
    proved to write just that. */
module WireFormat {
  import opened Bytes
  import opened Cbor
  import opened Endpoint
  import opened Blocks
  import opened BlockCodec
  import opened PrimaryCodec
  import opened BundleCodec
  import opened Checksums
  import BundleIds

  datatype Item =
    | UnsignedItem(n: uint64)
    | ByteItem(s: seq<byte>)
    | TextItem(s: seq<byte>)
    | ArrayItem(items: seq<Item>)

  function FourOf(n: uint32): (s: seq<byte>)
    ensures |s| == 4
  {
    [n / 0x100_0000, n / 0x1_0000 % 0x100, n / 0x100 % 0x100, n % 0x100]
  }

  /** Major type and argument of an item. */
  function Start(major: nat, n: uint64): seq<byte>
    requires major < 8
  {
    if n <= 23 then [0x20 * major + n]
    else if n <= 0xFF then [0x20 * major + 24, n]
    else if n <= 0xFFFF then [0x20 * major + 25, n / 0x100, n % 0x100]
    else if n <= 0xFFFF_FFFF then [0x20 * major + 26] + FourOf(n)
    else [0x20 * major + 27] + FourOf(n / 0x1_0000_0000) + FourOf(n % 0x1_0000_0000)
  }

  function Serialize(x: Item): seq<byte> {
    match x
    case UnsignedItem(n) => Start(0, n)
    case ByteItem(s) => Start(2, Length(s)) + s
    case TextItem(s) => Start(3, Length(s)) + s
    case ArrayItem(items) => Start(4, Length(items)) + SerializeAll(items)
  }

  function SerializeAll(items: seq<Item>): seq<byte> {
    if items == [] then [] else Serialize(items[0]) + SerializeAll(items[1..])
  }

  // ---------------------------------------------------------------- bundles as items

  /** A dtn endpoint is its scheme-specific part, or 0 for dtn:none. */
  function EndpointItem(e: EndpointID): Item {
    match e
    case DtnNone => ArrayItem([UnsignedItem(1), UnsignedItem(0)])
    case Dtn(nodeName, demux) => ArrayItem([UnsignedItem(1), TextItem([0x2F, 0x2F] + nodeName + [0x2F] + demux)])
    case Ipn(node, service) => ArrayItem([UnsignedItem(2), ArrayItem([UnsignedItem(node), UnsignedItem(service)])])
  }

  /** Version, flags, CRC type; destination, source, report-to; timestamp, lifetime; and in a fragment offset and total. */
  function PrimaryItems(pb: PrimaryBlock): seq<Item> {
    [UnsignedItem(7), UnsignedItem(pb.flags), UnsignedItem(pb.crcType)]
    + [EndpointItem(pb.destination), EndpointItem(pb.source), EndpointItem(pb.reportTo)]
    + [ArrayItem([UnsignedItem(pb.timestamp.time), UnsignedItem(pb.timestamp.sequence)]), UnsignedItem(pb.lifetime)]
    + if pb.flags % 2 == 1 then [UnsignedItem(pb.fragmentOffset), UnsignedItem(pb.totalDataLength)] else []
  }

  function TypeNumber(v: ExtensionBlock): uint64 {
    match v
    case PayloadBlock(_) => 1
    case PreviousNode(_) => 6
    case BundleAge(_) => 7
    case HopCount(_, _) => 10
    case BinarySpray(_) => 192
    case Generic(code, _) => code
  }

  /** The block-type-specific data; that of most blocks is the serialisation of another item. */
  function ValueData(v: ExtensionBlock): seq<byte> {
    match v
    case PayloadBlock(data) => data
    case PreviousNode(e) => Serialize(EndpointItem(e))
    case BundleAge(ms) => Serialize(UnsignedItem(ms))
    case HopCount(limit, count) => Serialize(ArrayItem([UnsignedItem(limit), UnsignedItem(count)]))
    case BinarySpray(copies) => Serialize(UnsignedItem(copies))
    case Generic(_, data) => data
  }

  /** Type, number, flags, CRC type, data. */
  function BlockItems(cb: CanonicalBlock): seq<Item> {
    [UnsignedItem(TypeNumber(cb.value)), UnsignedItem(cb.number)] + [UnsignedItem(cb.flags), UnsignedItem(cb.crcType)]
    + [ByteItem(ValueData(cb.value))]
  }

  /** A block of these items: its checksum, if there is one, is the last item, and that of the block with zeros in its place. */
  function Sealed(env: Env, crcType: uint64, items: seq<Item>): seq<byte> {
    if crcType == 1 then
      var n := env.crc16(Serialize(ArrayItem(items + [ByteItem([0, 0])])));
      Serialize(ArrayItem(items + [ByteItem([n / 0x100, n % 0x100])]))
    else if crcType == 2 then
      var n := env.crc32(Serialize(ArrayItem(items + [ByteItem([0, 0, 0, 0])])));
      Serialize(ArrayItem(items + [ByteItem(FourOf(n))]))
    else Serialize(ArrayItem(items))
  }

  function SealedBlocks(env: Env, blocks: seq<CanonicalBlock>): seq<byte> {
    if blocks == [] then []
    else Sealed(env, blocks[0].crcType, BlockItems(blocks[0])) + SealedBlocks(env, blocks[1..])
  }

  // ---------------------------------------------------------------- what is written

  lemma EightBytes(n: uint64)
    ensures BigEndian(n, 8) == FourOf(n / 0x1_0000_0000) + FourOf(n % 0x1_0000_0000)
  {
    var high, low := n / 0x1_0000_0000, n % 0x1_0000_0000;
    FourBytes(high);
    Quotients(n, high, low);
    assert BigEndian(n / 0x1_0000_0000, 4) == FourOf(high);
    assert BigEndian(n / 0x100_0000, 5) == BigEndian(n / 0x100_0000 / 0x100, 4) + [n / 0x100_0000 % 0x100];
    assert BigEndian(n / 0x1_0000, 6) == BigEndian(n / 0x1_0000 / 0x100, 5) + [n / 0x1_0000 % 0x100];
    assert BigEndian(n / 0x100, 7) == BigEndian(n / 0x100 / 0x100, 6) + [n / 0x100 % 0x100];
    assert BigEndian(n, 8) == BigEndian(n / 0x100, 7) + [n % 0x100];
  }

  lemma Quotients(n: nat, high: nat, low: nat)
    requires n == 0x1_0000_0000 * high + low && low < 0x1_0000_0000
    ensures n / 0x100 / 0x100 == n / 0x1_0000 && n / 0x1_0000 / 0x100 == n / 0x100_0000
    ensures n / 0x100_0000 / 0x100 == high
    ensures n % 0x100 == low % 0x100 && n / 0x100 % 0x100 == low / 0x100 % 0x100
    ensures n / 0x1_0000 % 0x100 == low / 0x1_0000 % 0x100 && n / 0x100_0000 % 0x100 == low / 0x100_0000
  {
    assert n / 0x100 == 0x100_0000 * high + low / 0x100;
    assert n / 0x1_0000 == 0x1_0000 * high + low / 0x1_0000;
    assert n / 0x100_0000 == 0x100 * high + low / 0x100_0000;
  }

  lemma HeadIsStart(major: Major, n: uint64)
    ensures Head(major, n) == Start(major, n)
  {
    hide BigEndian;
    if 24 <= n < 0x100 {
      OneByte(n);
    } else if n < TWO_TO_THE_16 {
      TwoBytes(n);
    } else if n < TWO_TO_THE_32 {
      FourBytes(n);
    } else {
      EightBytes(n);
    }
  }

  lemma OneByte(n: byte)
    ensures BigEndian(n, 1) == [n]
  {
    assert BigEndian(n / 0x100, 0) == [];
  }

  lemma {:induction false} SerializeBoth(a: seq<Item>, b: seq<Item>)
    ensures SerializeAll(a + b) == SerializeAll(a) + SerializeAll(b)
  {
    hide Serialize;
    if a == [] {
      assert a + b == b;
    } else {
      assert (a + b)[1..] == a[1..] + b;
      SerializeBoth(a[1..], b);
    }
  }

  lemma SerializeFew(x: Item, y: Item, z: Item)
    ensures SerializeAll([x]) == Serialize(x)
    ensures SerializeAll([x, y]) == Serialize(x) + Serialize(y)
    ensures SerializeAll([x, y, z]) == Serialize(x) + Serialize(y) + Serialize(z)
  {
    hide Serialize;
    assert [x][1..] == [] && [x, y][1..] == [y] && [x, y, z][1..] == [y, z] && [y, z][1..] == [z] && [y][1..] == [] && [z][1..] == [];
    assert SerializeAll([z]) == Serialize(z) + [];
    assert SerializeAll([y]) == Serialize(y) + [];
    assert SerializeAll([x]) == Serialize(x) + [];
    assert SerializeAll([y, z]) == Serialize(y) + Serialize(z);
  }

  lemma UIntIsItem(n: uint64)
    ensures UInt(n) == Serialize(UnsignedItem(n))
  {
    HeadIsStart(MAJOR_UINT, n);
  }

  lemma BytesAreItem(s: seq<byte>)
    ensures ByteString(s) == Serialize(ByteItem(s))
  {
    HeadIsStart(MAJOR_BYTES, Length(s));
  }

  lemma PairIsItem(m: uint64, n: uint64)
    ensures ArrayHead(2) + (UInt(m) + UInt(n)) == Serialize(ArrayItem([UnsignedItem(m), UnsignedItem(n)]))
  {
    hide Head;
    HeadIsStart(MAJOR_ARRAY, 2);
    UIntIsItem(m);
    UIntIsItem(n);
    SerializeFew(UnsignedItem(m), UnsignedItem(n), UnsignedItem(n));
  }

  lemma EndpointIsItem(e: EndpointID)
    requires EncodeEndpoint(e).Some?
    ensures EncodeEndpoint(e).value == Serialize(EndpointItem(e))
  {
    hide Head, Start, UInt, Endpoint.CheckValid;
    HeadIsStart(MAJOR_ARRAY, 2);
    UIntIsItem(SchemeNo(e));
    match e
    case DtnNone =>
      UIntIsItem(0);
      SerializeFew(UnsignedItem(1), UnsignedItem(0), UnsignedItem(0));
    case Dtn(nodeName, demux) =>
      var text := [0x2F, 0x2F] + nodeName + [0x2F] + demux;
      HeadIsStart(MAJOR_TEXT, Length(text));
      SerializeFew(UnsignedItem(1), TextItem(text), UnsignedItem(0));
    case Ipn(node, service) =>
      PairIsItem(node, service);
      SerializeFew(UnsignedItem(2), ArrayItem([UnsignedItem(node), UnsignedItem(service)]), UnsignedItem(0));
  }

  lemma ValueIsData(v: ExtensionBlock)
    requires MarshalValue(v).Some?
    ensures MarshalValue(v).value == ValueData(v) && v.TypeCode() == TypeNumber(v)
  {
    hide EncodeEndpoint, Serialize, UInt, ArrayHead;
    match v
    case PreviousNode(e) => EndpointIsItem(e);
    case BundleAge(ms) => UIntIsItem(ms);
    case HopCount(limit, count) => PairIsItem(limit, count);
    case BinarySpray(copies) => UIntIsItem(copies);
    case _ =>
  }

  lemma ArrayAlone(items: seq<Item>)
    requires |items| <= 0xFF
    ensures Serialize(ArrayItem(items)) == ArrayHead(|items|) + SerializeAll(items)
  {
    hide Head, Start;
    HeadIsStart(MAJOR_ARRAY, |items|);
  }

  /** An array of these items and, behind them, a checksum. */
  lemma ArrayWithChecksum(items: seq<Item>, c: seq<byte>)
    requires |items| < 0xFF
    ensures Serialize(ArrayItem(items + [ByteItem(c)])) == ArrayHead(|items| + 1) + SerializeAll(items) + ByteString(c)
  {
    hide ArrayHead, ByteString, Serialize, SerializeAll;
    ArrayAlone(items + [ByteItem(c)]);
    BytesAreItem(c);
    SerializeBoth(items, [ByteItem(c)]);
    SerializeFew(ByteItem(c), ByteItem(c), ByteItem(c));
    Associative(ArrayHead(|items| + 1), SerializeAll(items), ByteString(c));
  }

  /** What a block of these items is written as, with its checksum field. */
  lemma SealedIsWritten(env: Env, crcType: uint64, items: seq<Item>, covered: seq<byte>)
    requires crcType <= CRC_32 && |items| < 0xFF
    requires covered == ArrayHead(|items| + if crcType == 0 then 0 else 1) + SerializeAll(items)
    ensures covered + CrcField(env, crcType, covered) == Sealed(env, crcType, items)
  {
    hide Serialize, SerializeAll, ArrayHead, ByteString, CrcBytes;
    if crcType == 0 {
      ArrayAlone(items);
      assert covered + [] == covered;
    } else {
      CrcBytesAre(env, crcType, covered);
      ZeroStrings();
      ArrayWithChecksum(items, [0, 0]);
      ArrayWithChecksum(items, [0, 0, 0, 0]);
      ArrayWithChecksum(items, Checksum(env, crcType, covered));
    }
  }

  lemma ZeroStrings()
    ensures ByteString([0, 0]) == [0x42, 0, 0] && ByteString([0, 0, 0, 0]) == [0x44, 0, 0, 0, 0]
  {
  }

  lemma BlockItemsSerialized(cb: CanonicalBlock)
    requires MarshalValue(cb.value).Some?
    ensures SerializeAll(BlockItems(cb)) == CanonicalHead(cb) + ByteString(MarshalValue(cb.value).value)
  {
    hide Serialize, SerializeAll, UInt, ByteString, MarshalValue, TypeNumber, ValueData;
    ValueIsData(cb.value);
    var first := [UnsignedItem(TypeNumber(cb.value)), UnsignedItem(cb.number)];
    var second := [UnsignedItem(cb.flags), UnsignedItem(cb.crcType)];
    var data := ByteItem(ValueData(cb.value));
    SerializeBoth(first + second, [data]);
    SerializeBoth(first, second);
    SerializeFew(first[0], first[1], data);
    SerializeFew(second[0], second[1], data);
    SerializeFew(data, data, data);
    UIntIsItem(TypeNumber(cb.value));
    UIntIsItem(cb.number);
    UIntIsItem(cb.flags);
    UIntIsItem(cb.crcType);
    BytesAreItem(ValueData(cb.value));
  }

  /** A canonical block is written as the array of its items. */
  lemma BlockIsWritten(env: Env, cb: CanonicalBlock)
    requires EncodeCanonical(env, cb).Some?
    ensures EncodeCanonical(env, cb).value == Sealed(env, cb.crcType, BlockItems(cb))
  {
    hide SerializeAll, CanonicalHead, ByteString, ArrayHead, CrcField, Sealed, MarshalValue, TypeNumber, ValueData;
    BlockItemsSerialized(cb);
    SealedIsWritten(env, cb.crcType, BlockItems(cb), CanonicalCovered(cb).value);
  }

  lemma FragmentItems(pb: PrimaryBlock)
    ensures var items := if pb.flags % 2 == 1 then [UnsignedItem(pb.fragmentOffset), UnsignedItem(pb.totalDataLength)] else [];
            SerializeAll(items) == FragmentFields(pb)
  {
    hide Serialize, UInt;
    UIntIsItem(pb.fragmentOffset);
    UIntIsItem(pb.totalDataLength);
    SerializeFew(UnsignedItem(pb.fragmentOffset), UnsignedItem(pb.totalDataLength), UnsignedItem(0));
  }

  lemma EndpointItems(pb: PrimaryBlock)
    requires Endpoints(pb).Some?
    ensures SerializeAll([EndpointItem(pb.destination), EndpointItem(pb.source), EndpointItem(pb.reportTo)]) == Endpoints(pb).value
  {
    hide Serialize, EncodeEndpoint, EndpointItem, SerializeAll;
    EndpointIsItem(pb.destination);
    EndpointIsItem(pb.source);
    EndpointIsItem(pb.reportTo);
    SerializeFew(EndpointItem(pb.destination), EndpointItem(pb.source), EndpointItem(pb.reportTo));
  }

  lemma TimesItems(pb: PrimaryBlock)
    ensures var time := ArrayItem([UnsignedItem(pb.timestamp.time), UnsignedItem(pb.timestamp.sequence)]);
            SerializeAll([time, UnsignedItem(pb.lifetime)]) == Times(pb)
  {
    hide Serialize, UInt, ArrayHead, SerializeAll;
    var time := ArrayItem([UnsignedItem(pb.timestamp.time), UnsignedItem(pb.timestamp.sequence)]);
    PairIsItem(pb.timestamp.time, pb.timestamp.sequence);
    UIntIsItem(pb.lifetime);
    SerializeFew(time, UnsignedItem(pb.lifetime), time);
  }

  lemma PrimaryItemsSerialized(pb: PrimaryBlock)
    requires Endpoints(pb).Some?
    ensures SerializeAll(PrimaryItems(pb))
         == (UInt(7) + UInt(pb.flags) + UInt(pb.crcType)) + Endpoints(pb).value + Times(pb) + FragmentFields(pb)
  {
    hide Serialize, SerializeAll, UInt, Endpoints, Times, FragmentFields, EndpointItem;
    var first := [UnsignedItem(7), UnsignedItem(pb.flags), UnsignedItem(pb.crcType)];
    var second := [EndpointItem(pb.destination), EndpointItem(pb.source), EndpointItem(pb.reportTo)];
    var third := [ArrayItem([UnsignedItem(pb.timestamp.time), UnsignedItem(pb.timestamp.sequence)]), UnsignedItem(pb.lifetime)];
    var last := if pb.flags % 2 == 1 then [UnsignedItem(pb.fragmentOffset), UnsignedItem(pb.totalDataLength)] else [];
    SerializeBoth(first + second + third, last);
    SerializeBoth(first + second, third);
    SerializeBoth(first, second);
    SerializeFew(first[0], first[1], first[2]);
    UIntIsItem(7);
    UIntIsItem(pb.flags);
    UIntIsItem(pb.crcType);
    EndpointItems(pb);
    TimesItems(pb);
    FragmentItems(pb);
  }

  /** So is the primary block. */
  lemma PrimaryIsWritten(env: Env, pb: PrimaryBlock)
    requires EncodePrimary(env, pb).Some?
    ensures EncodePrimary(env, pb).value == Sealed(env, pb.crcType, PrimaryItems(pb))
  {
    hide SerializeAll, Endpoints, Times, FragmentFields, ArrayHead, UInt, CrcField, Sealed, EndpointItem;
    PrimaryItemsSerialized(pb);
    var covered := PrimaryCovered(pb).value;
    RegroupPrimary(ArrayHead(PrimaryCodec.ArraySize(pb)), UInt(7), UInt(pb.flags), UInt(pb.crcType), Endpoints(pb).value, Times(pb),
                   FragmentFields(pb));
    SealedIsWritten(env, pb.crcType, PrimaryItems(pb), covered);
  }

  lemma RegroupPrimary(h: seq<byte>, a: seq<byte>, b: seq<byte>, c: seq<byte>, d: seq<byte>, e: seq<byte>, f: seq<byte>)
    ensures (h + (a + (b + c))) + (d + (e + f)) == h + ((a + b + c) + d + e + f)
  {
  }

  lemma {:induction false} BlocksAreWritten(env: Env, blocks: seq<CanonicalBlock>)
    requires EncodeBlocks(env, blocks).Some?
    ensures EncodeBlocks(env, blocks).value == SealedBlocks(env, blocks)
  {
    hide EncodeCanonical, Sealed;
    if blocks != [] {
      assert blocks[0] in blocks;
      BlockIsWritten(env, blocks[0]);
      BlocksAreWritten(env, blocks[1..]);
    }
  }

  /** A bundle is written as an array of indefinite length: its primary block, its extension blocks in order, and its payload
      block. */
  lemma BundleIsWritten(env: Env, b: Bundle)
    requires EncodeBundle(env, b).Some?
    ensures EncodeBundle(env, b).value
         == [0x9F] + Sealed(env, b.primary.crcType, PrimaryItems(b.primary)) + SealedBlocks(env, b.extensions + [b.payload]) + [0xFF]
  {
    hide EncodePrimary, EncodeBlocks, EncodeCanonical, Sealed, SealedBlocks, PrimaryItems;
    PrimaryIsWritten(env, b.primary);
    BlocksAreWritten(env, b.extensions + [b.payload]);
    RegroupBundle(EncodePrimary(env, b.primary).value, EncodeBlocks(env, b.extensions + [b.payload]).value);
  }

  lemma RegroupBundle(primary: seq<byte>, blocks: seq<byte>)
    ensures [0x9F] + (primary + (blocks + [0xFF])) == [0x9F] + primary + blocks + [0xFF]
  {
  }

  /** A bundle ID is written as source, timestamp and, for a fragment, offset and total, one after the other. */
  lemma IDIsWritten(bid: BundleIds.BundleID)
    requires BundleIds.Encode(bid).Some?
    ensures var time := ArrayItem([UnsignedItem(bid.timestamp.time), UnsignedItem(bid.timestamp.sequence)]);
            var fragment := if bid.isFragment then [UnsignedItem(bid.offset), UnsignedItem(bid.total)] else [];
            BundleIds.Encode(bid).value == SerializeAll([EndpointItem(bid.source), time] + fragment)
  {
    hide Serialize, SerializeAll, EncodeEndpoint, EndpointItem, UInt, ArrayHead;
    var time := ArrayItem([UnsignedItem(bid.timestamp.time), UnsignedItem(bid.timestamp.sequence)]);
    var fragment := if bid.isFragment then [UnsignedItem(bid.offset), UnsignedItem(bid.total)] else [];
    EndpointIsItem(bid.source);
    PairIsItem(bid.timestamp.time, bid.timestamp.sequence);
    UIntIsItem(bid.offset);
    UIntIsItem(bid.total);
    SerializeBoth([EndpointItem(bid.source), time], fragment);
    SerializeFew(EndpointItem(bid.source), time, time);
    SerializeFew(UnsignedItem(bid.offset), UnsignedItem(bid.total), time);
    NoItems();
    Associative(Serialize(EndpointItem(bid.source)), Serialize(time), SerializeAll(fragment));
  }

  lemma NoItems()
    ensures SerializeAll([]) == []
  {
  }

  /** A known CRC type, and a previous node that is a valid endpoint. */
  predicate Writable(cb: CanonicalBlock) {
    cb.crcType <= 2 && (cb.value.PreviousNode? ==> Endpoint.CheckValid(cb.value.endpoint))
  }

  /** It is written at all exactly if its endpoints are valid and its CRC types known. */
  lemma BundleWrittenExactly(env: Env, b: Bundle)
    ensures EncodeBundle(env, b).Some? <==>
      && b.primary.crcType <= 2
      && Endpoint.CheckValid(b.primary.destination) && Endpoint.CheckValid(b.primary.source) && Endpoint.CheckValid(b.primary.reportTo)
      && forall cb :: cb in b.extensions + [b.payload] ==> Writable(cb)
  {
    hide EncodePrimary, EncodeCanonical, Writable, Endpoint.CheckValid;
    PrimaryWrittenExactly(env, b.primary);
    forall cb ensures EncodeCanonical(env, cb).Some? <==> Writable(cb) {
      BlockWrittenExactly(env, cb);
    }
  }

  lemma BlockWrittenExactly(env: Env, cb: CanonicalBlock)
    ensures EncodeCanonical(env, cb).Some? <==> Writable(cb)
  {
    hide Endpoint.CheckValid, ArrayHead, CanonicalHead, ByteString;
  }

  lemma PrimaryWrittenExactly(env: Env, pb: PrimaryBlock)
    ensures EncodePrimary(env, pb).Some? <==>
      && pb.crcType <= 2
      && Endpoint.CheckValid(pb.destination) && Endpoint.CheckValid(pb.source) && Endpoint.CheckValid(pb.reportTo)
  {
    hide Endpoint.CheckValid, Start, Times, FragmentFields;
    EncodesIffValid(pb.destination);
    EncodesIffValid(pb.source);
    EncodesIffValid(pb.reportTo);
    hide EncodeEndpoint;
  }

  // ---------------------------------------------------------------- what is read

  /** Major type and argument in 1, 2, 3, 5 or 9 bytes; a form may be longer than needed. */
  predicate IsHead(h: seq<byte>, major: Major, n: uint64) {
    || (n <= 23 && h == [0x20 * major + n])
    || (n <= 0xFF && h == [0x20 * major + 24, n])
    || (n <= 0xFFFF && h == [0x20 * major + 25, n / 0x100, n % 0x100])
    || (n <= 0xFFFF_FFFF && h == [0x20 * major + 26] + FourOf(n))
    || h == [0x20 * major + 27] + FourOf(n / 0x1_0000_0000) + FourOf(n % 0x1_0000_0000)
  }

  lemma {:induction false} BigEndianOfRead(s: seq<byte>)
    ensures BigEndian(FromBigEndian(s), |s|) == s
  {
    if s != [] {
      var n := |s| - 1;
      BigEndianOfRead(s[..n]);
      assert FromBigEndian(s) / 0x100 == FromBigEndian(s[..n]) && FromBigEndian(s) % 0x100 == s[n];
    }
  }

  /** The argument of `k` bytes behind the first byte of a head. */
  function Argument(n: uint64, k: nat): seq<byte>
    requires k in {1, 2, 4, 8}
  {
    if k == 1 then [n % 0x100]
    else if k == 2 then [n / 0x100 % 0x100, n % 0x100]
    else if k == 4 then FourOf(n % 0x1_0000_0000)
    else FourOf(n / 0x1_0000_0000) + FourOf(n % 0x1_0000_0000)
  }

  lemma ArgumentIsBigEndian(n: uint64, k: nat)
    requires k in {1, 2, 4, 8} && n < Pow256(k)
    ensures Argument(n, k) == BigEndian(n, k) && |Argument(n, k)| == k
  {
    hide BigEndian, Pow256, FourOf;
    Pow256Values();
    if k == 1 {
      OneByte(n);
    } else if k == 2 {
      TwoBytes(n);
    } else if k == 4 {
      assert BigEndian(n, 4) == FourOf(n) by { FourBytesOf(n); }
    } else {
      EightBytes(n);
    }
  }

  lemma FourBytesOf(n: uint32)
    ensures BigEndian(n, 4) == FourOf(n)
  {
    hide BigEndian;
    FourBytes(n);
  }

  lemma ArgumentIsRead(major: Major, k: nat, s: seq<byte>, n: uint64, t: seq<byte>)
    requires k in {1, 2, 4, 8}
    ensures ReadArgument(major, k, s) == Ok((major, n), t) <==> n < Pow256(k) && s == Argument(n, k) + t
  {
    hide BigEndian, FromBigEndian, Pow256, Argument;
    Pow256Values();
    if ReadArgument(major, k, s) == Ok((major, n), t) {
      FromBigEndianBound(s[..k]);
      BigEndianOfRead(s[..k]);
      ArgumentIsBigEndian(n, k);
      assert s == s[..k] + s[k..];
    }
    if n < Pow256(k) && s == Argument(n, k) + t {
      ArgumentIsBigEndian(n, k);
      ReadOwnArgument(major, n, k, t);
    }
  }

  ghost predicate StartsWithHead(s: seq<byte>, major: Major, n: uint64, t: seq<byte>) {
    exists h :: IsHead(h, major, n) && s == h + t
  }

  /** A head is read exactly if the bytes start with one of these forms. The break code is 0xFF. */
  lemma ReadMajorsExactly(s: seq<byte>, major: Major, n: uint64, t: seq<byte>)
    ensures ReadMajors(s) == Ok((major, n), t) <==> StartsWithHead(s, major, n, t)
    ensures ReadMajors(s) == Break(t) <==> s == [0xFF] + t
  {
    if ReadMajors(s) == Ok((major, n), t) {
      ReadStartsWithHead(s, major, n, t);
    }
    if StartsWithHead(s, major, n, t) {
      var h :| IsHead(h, major, n) && s == h + t;
      HeadIsRead(h, major, n, t);
    }
    assert s != [] ==> s == [s[0]] + s[1..];
  }

  lemma ReadStartsWithHead(s: seq<byte>, major: Major, n: uint64, t: seq<byte>)
    requires ReadMajors(s) == Ok((major, n), t)
    ensures StartsWithHead(s, major, n, t)
  {
    hide ReadArgument, FourOf;
    var info := s[0] % 32;
    if info < 24 {
      assert s == [0x20 * major + n] + t;
      assert IsHead([0x20 * major + n], major, n);
    } else {
      var k := if info == 24 then 1 else if info == 25 then 2 else if info == 26 then 4 else 8;
      assert ReadArgument(s[0] / 32, k, s[1..]) == Ok((major, n), t);
      SameMajor(s[0] / 32, k, s[1..]);
      assert s[0] == 0x20 * major + info;
      LongHeadStarts(s, major, k, n, t);
    }
  }

  /** The last five bits of a first byte before an argument of `k` bytes. */
  function Info(k: nat): byte
    requires k in {1, 2, 4, 8}
  {
    if k == 1 then 24 else if k == 2 then 25 else if k == 4 then 26 else 27
  }

  lemma ArgumentIsHead(major: Major, n: uint64, k: nat)
    requires k in {1, 2, 4, 8} && n < Pow256(k)
    ensures IsHead([0x20 * major + Info(k)] + Argument(n, k), major, n)
  {
    hide Pow256;
    Pow256Values();
  }

  lemma LongHeadStarts(s: seq<byte>, major: Major, k: nat, n: uint64, t: seq<byte>)
    requires k in {1, 2, 4, 8} && s != [] && s[0] == 0x20 * major + Info(k)
    requires ReadArgument(major, k, s[1..]) == Ok((major, n), t)
    ensures StartsWithHead(s, major, n, t)
  {
    hide ReadArgument, Pow256, Argument, IsHead;
    ArgumentIsRead(major, k, s[1..], n, t);
    ArgumentIsHead(major, n, k);
    var h := [s[0]] + Argument(n, k);
    assert s == [s[0]] + s[1..];
    assert s == h + t;
  }

  lemma SameMajor(major: Major, k: nat, s: seq<byte>)
    requires k in {1, 2, 4, 8} && ReadArgument(major, k, s).Ok?
    ensures ReadArgument(major, k, s).value.0 == major
  {
  }

  lemma HeadIsRead(h: seq<byte>, major: Major, n: uint64, t: seq<byte>)
    requires IsHead(h, major, n)
    ensures ReadMajors(h + t) == Ok((major, n), t)
  {
    hide ReadMajors, Argument, Info;
    if |h| == 1 {
      ShortHeadIsRead(major, n, t);
    } else {
      HeadIsArgument(h, major, n);
      LongHeadIsRead(h, major, |h| - 1, n, t);
    }
  }

  lemma ShortHeadIsRead(major: Major, n: uint64, t: seq<byte>)
    requires n <= 23
    ensures ReadMajors([0x20 * major + n] + t) == Ok((major, n), t)
  {
    hide ReadArgument;
    FirstByte(major, n);
    assert ([0x20 * major + n] + t)[1..] == t;
  }

  lemma FirstByte(major: Major, info: byte)
    requires info <= 27
    ensures var b: int := 0x20 * major + info; b / 32 == major && b % 32 == info && b != INDEFINITE_ARRAY && b != BREAK_CODE
  {
  }

  lemma LongHeadIsRead(h: seq<byte>, major: Major, k: nat, n: uint64, t: seq<byte>)
    requires k in {1, 2, 4, 8} && |h| == k + 1 && n < Pow256(k) && h[0] == 0x20 * major + Info(k) && h[1..] == Argument(n, k)
    ensures ReadMajors(h + t) == Ok((major, n), t)
  {
    hide ReadArgument, Argument, Pow256;
    var s := h + t;
    FirstByte(major, Info(k));
    assert s[0] == h[0] && s[1..] == h[1..] + t;
    ArgumentIsRead(major, k, s[1..], n, t);
  }

  lemma HeadIsArgument(h: seq<byte>, major: Major, n: uint64)
    requires IsHead(h, major, n) && |h| > 1
    ensures var k := |h| - 1;
            k in {1, 2, 4, 8} && n < Pow256(k) && h[0] == 0x20 * major + Info(k) && h[1..] == Argument(n, k)
  {
    hide Pow256;
    Pow256Values();
  }
}
