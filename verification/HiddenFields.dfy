/** Fragment fields without the fragment flag: the reader goes by the array size, the writer and the text of an ID go by the
    flag. */
module HiddenFields {
  import opened Bytes
  import opened Cbor
  import opened Endpoint
  import opened Blocks
  import opened BlockCodec
  import opened PrimaryCodec
  import opened BundleCodec
  import opened BundleIds
  import opened StoreMachine
  import Retention

  /** A bundle with offset and total length in its primary block. */
  function WithFields(b: Bundle, offset: uint64, total: uint64): Bundle {
    b.(primary := b.primary.(fragmentOffset := offset, totalDataLength := total))
  }

  // ---------------------------------------------------------------- reading

  function TenStart(pb: PrimaryBlock): seq<byte> {
    ArrayHead(10) + (UInt(DTN_VERSION) + (UInt(pb.flags) + UInt(pb.crcType)))
  }

  /** The primary block as an array of ten fields, whatever its flags are. */
  function TenFields(pb: PrimaryBlock): Option<seq<byte>> {
    var endpoints :- Endpoints(pb);
    Some(TenStart(pb) + (endpoints + (Times(pb) + (UInt(pb.fragmentOffset) + UInt(pb.totalDataLength)))))
  }

  /** The encoding of a bundle, but for its primary block, which has ten fields. */
  function TenFieldBundle(env: Env, b: Bundle): Option<seq<byte>> {
    var primary :- TenFields(b.primary);
    var blocks :- EncodeBlocks(env, b.extensions + [b.payload]);
    Some([INDEFINITE_ARRAY] + (primary + (blocks + [BREAK_CODE])))
  }

  lemma TenStartRead(pb: PrimaryBlock, t: seq<byte>)
    ensures DecodeStart(TenStart(pb) + t) == Ok(PrimaryStart(10, pb.flags, pb.crcType), t)
  {
    hide ReadExpected, ReadPair, UInt, ArrayHead;
    var last := UInt(pb.flags) + UInt(pb.crcType);
    SplitStart(ArrayHead(10), UInt(DTN_VERSION), last, t);
    ReadArrayHead(10, UInt(DTN_VERSION) + (last + t));
    ReadUIntHead(DTN_VERSION, last + t);
    ReadPairHeads(pb.flags, pb.crcType, t);
  }

  /** The fields are read without a look at the flags. */
  lemma TenFieldsRead(env: Env, pb: PrimaryBlock, t: seq<byte>)
    requires TenFields(pb).Some? && SizedPrimary(pb) && pb.version == DTN_VERSION
    requires WellFormed(pb.destination) && WellFormed(pb.source) && WellFormed(pb.reportTo)
    ensures DecodePrimary(env, TenFields(pb).value + t) == Ok(pb.(crc := []), t)
  {
    hide DecodeStart, DecodeEndpoints, DecodeTimes, TenStart, Endpoints, Times, WellFormed, SizedPrimary, UInt, ReadPair, CrcBytes;
    var endpoints := Endpoints(pb).value;
    var fields := UInt(pb.fragmentOffset) + UInt(pb.totalDataLength);
    var s3 := fields + t;
    var s2 := Times(pb) + s3;
    var s1 := endpoints + s2;
    SplitCovered(TenStart(pb), endpoints, Times(pb), fields, t);
    TenStartRead(pb, s1);
    EndpointsRoundTrip(pb, s2);
    TimesRoundTrip(pb, s3);
    ReadPairHeads(pb.fragmentOffset, pb.totalDataLength, t);
  }

  lemma FieldsDoNotMatter(env: Env, b: Bundle, offset: uint64, total: uint64)
    ensures CheckBundle(env, WithFields(b, offset, total)) <==> CheckBundle(env, b)
  {
    hide OfType, ExtensionsValid, Endpoint.CheckValid, Has;
  }

  /** Every bundle that is read back, and has no checksum on its primary block, can also be received with any offset and
      total length, and is as valid. */
  lemma ReceivedWithFields(env: Env, b: Bundle, offset: uint64, total: uint64, t: seq<byte>)
    requires EncodeBundle(env, b).Some? && SizedBundle(b) && ReadableBundle(env, b) && CheckBundle(env, b)
    requires b.primary.crcType == CRC_NO
    ensures TenFieldBundle(env, WithFields(b, offset, total)).Some?
    ensures DecodeBundle(env, TenFieldBundle(env, WithFields(b, offset, total)).value + t)
         == Ok(WithFields(FilledBundle(env, b), offset, total), t)
  {
    hide EncodePrimary, DecodePrimary, EncodeBlocks, DecodeBlocks, CheckBundle, Extensions, LastPayload;
    hide AllReadable, AllSized, FilledBlocks, TenFields, EncodeCanonical, WellFormed;
    var w := WithFields(b, offset, total);
    PrimaryEncodes(env, b, w);
    var blocks := b.extensions + [b.payload];
    var n := |b.extensions|;
    var end := EncodeBlocks(env, blocks).value + ([BREAK_CODE] + t);
    SplitBundle(TenFields(w.primary).value, EncodeBlocks(env, blocks).value, t);
    TenFieldsRead(env, w.primary, end);
    BlocksRoundTrip(env, blocks, t);
    var filled := FilledBlocks(env, blocks);
    assert filled == filled[..n] + [filled[n]] && blocks[..n] == b.extensions && blocks[n] == b.payload;
    FilledKeepsTypes(env, blocks);
    SameTypesSeparate(filled, blocks, n);
    SeparatePayload(filled, n);
    ValidFilled(env, b);
    FieldsDoNotMatter(env, FilledBundle(env, b), offset, total);
    NoChecksum(env, b);
  }

  lemma PrimaryEncodes(env: Env, b: Bundle, w: Bundle)
    requires EncodePrimary(env, b.primary).Some? && w == WithFields(b, w.primary.fragmentOffset, w.primary.totalDataLength)
    ensures TenFields(w.primary).Some?
  {
    hide EncodeEndpoint, UInt, Times;
  }

  lemma NoChecksum(env: Env, b: Bundle)
    requires EncodeBundle(env, b).Some? && b.primary.crcType == CRC_NO
    ensures FilledBundle(env, b).primary == b.primary.(crc := [])
  {
    hide EncodeBlocks, EncodeCanonical, FilledBlocks;
    var c := CrcBytes(env, b.primary.crcType, PrimaryCovered(b.primary).value).value;
    assert |c| == 0;
  }

  lemma FilledKeepsTypes(env: Env, blocks: seq<CanonicalBlock>)
    requires forall cb :: cb in blocks ==> EncodeCanonical(env, cb).Some?
    ensures SameTypes(FilledBlocks(env, blocks), blocks)
  {
    hide EncodeCanonical, CrcBytes;
  }

  // ---------------------------------------------------------------- the ID

  /** Two bundles that are no fragments and differ in the fields only have one key, and two IDs unless the fields agree. */
  lemma FieldsAreNotShown(b: Bundle, offset: uint64, total: uint64)
    requires !b.primary.HasFragmentation()
    ensures Print(ID(WithFields(b, offset, total))) == Print(ID(b))
    ensures ID(WithFields(b, offset, total)) == ID(b)
       <==> offset == b.primary.fragmentOffset && total == b.primary.totalDataLength
  {
    hide Uri, Dashed;
  }

  /** Nor are they written, so such a bundle comes back from the disk under another ID. */
  lemma FieldsAreNotWritten(env: Env, b: Bundle, offset: uint64, total: uint64)
    requires !b.primary.HasFragmentation()
    ensures EncodeBundle(env, WithFields(b, offset, total)) == EncodeBundle(env, b)
  {
    hide EncodeEndpoint, CrcField, EncodeBlocks, EncodeTimestamp, UInt, ArrayHead;
    assert PrimaryCovered(WithFields(b, offset, total).primary) == PrimaryCovered(b.primary);
  }

  lemma OneIDForKey(cfg: Config, s: Store, d: nat, id: BundleID)
    requires Safe(cfg, s) && d < |s.descriptors| && Found(s, d) && id in s.bundles && Print(id) == s.descriptors[d].metadata.key
    ensures id == s.descriptors[d].metadata.id
  {
    hide EncodeBundle, Print, Stored, Retention.Consistent;
    var e := s.bundles[id];
    assert Sound(cfg, s, e) && Found(s, e);
    assert SameKey(s, d, e);
  }

  /** While a bundle that is no fragment is in the store, it is refused with any other fields. */
  lemma SecondIsRefused(cfg: Config, actions: seq<Action>, d: nat, offset: uint64, total: uint64, writing: Writing)
    requires Injective(cfg.hash) && d < |Run(cfg, EMPTY, actions).descriptors| && Found(Run(cfg, EMPTY, actions), d)
    requires var b := Run(cfg, EMPTY, actions).descriptors[d].bundle;
             !b.primary.HasFragmentation() && (offset != b.primary.fragmentOffset || total != b.primary.totalDataLength)
    ensures var s := Run(cfg, EMPTY, actions);
            var w := WithFields(s.descriptors[d].bundle, offset, total);
            ID(w) !in s.bundles && Step(cfg, s, Insert(w, writing)) == s
  {
    hide Injective, Run, EncodeBundle, Print, ID, PreviousNodes, Step, Stored, Retention.Consistent, WithFields;
    EmptySafe(cfg);
    RunSafe(cfg, EMPTY, actions);
    var s := Run(cfg, EMPTY, actions);
    assert Sound(cfg, s, d);
    var b := s.descriptors[d].bundle;
    var w := WithFields(b, offset, total);
    FieldsAreNotShown(b, offset, total);
    if ID(w) in s.bundles {
      OneIDForKey(cfg, s, d, ID(w));
      assert false;
    }
    CollidingInsertIsRefused(cfg, actions, d, w, writing);
  }

  // ---------------------------------------------------------------- an input

  /** The node dtn://a/. */
  const NODE := Dtn([0x61], [])

  /** An empty bundle of this node, made at time 1. */
  const PLAIN := Bundle(PrimaryBlock(7, 0, CRC_NO, NODE, NODE, NODE, Timestamp(1, 0), 1, 0, 0, []), [],
                        CanonicalBlock(1, 0, CRC_NO, [], PayloadBlock([])))

  /** What is received as it is, and with other fields. */
  ghost predicate ReceivedTwice(env: Env, b: Bundle, w: Bundle) {
    && EncodeBundle(env, b).Some? && DecodeBundle(env, EncodeBundle(env, b).value) == Ok(b, [])
    && TenFieldBundle(env, w).Some? && DecodeBundle(env, TenFieldBundle(env, w).value) == Ok(w, [])
  }

  lemma BothAreReceived(env: Env, b: Bundle, offset: uint64, total: uint64)
    requires EncodeBundle(env, b).Some? && SizedBundle(b) && ReadableBundle(env, b) && CheckBundle(env, b)
    requires b.primary.crcType == CRC_NO && FilledBundle(env, b) == b
    ensures ReceivedTwice(env, b, WithFields(b, offset, total))
  {
    hide EncodeBundle, DecodeBundle, TenFieldBundle, FilledBundle, SizedBundle, ReadableBundle, CheckBundle, WithFields;
    BundleRoundTrip(env, b, []);
    ReceivedWithFields(env, b, offset, total, []);
    assert EncodeBundle(env, b).value + [] == EncodeBundle(env, b).value;
    var w := WithFields(b, offset, total);
    assert TenFieldBundle(env, w).value + [] == TenFieldBundle(env, w).value;
  }

  /** Until it expires it can be received with and without an offset of 1 and a total length of 2: two valid bundles, two
      IDs, and one key. */
  lemma TwoIDsOneKey(env: Env)
    requires TYPE_PAYLOAD in env.registry && !env.expired(1, 1)
    ensures var w := WithFields(PLAIN, 1, 2);
            ReceivedTwice(env, PLAIN, w) && ID(w) != ID(PLAIN) && Print(ID(w)) == Print(ID(PLAIN))
  {
    hide ReceivedTwice, EncodeBundle, FilledBundle, SizedBundle, ReadableBundle, CheckBundle, Print, WithFields, ID;
    PlainIsRead(env);
    PlainIsFilled(env);
    assert !PLAIN.primary.HasFragmentation();
    BothAreReceived(env, PLAIN, 1, 2);
    FieldsAreNotShown(PLAIN, 1, 2);
  }

  lemma PlainIsRead(env: Env)
    requires TYPE_PAYLOAD in env.registry && !env.expired(1, 1)
    ensures EncodeBundle(env, PLAIN).Some? && SizedBundle(PLAIN) && ReadableBundle(env, PLAIN) && CheckBundle(env, PLAIN)
  {
    hide EncodeEndpoint, CrcField, UInt, ArrayHead, EncodeTimestamp, Endpoint.CheckValid;
    assert IsNameByte(0x61) && WellFormed(NODE);
    WellFormedIsValid(NODE);
    EncodesIffValid(NODE);
    assert PLAIN.extensions + [PLAIN.payload] == [PLAIN.payload];
  }

  lemma PlainIsFilled(env: Env)
    requires EncodeBundle(env, PLAIN).Some?
    ensures FilledBundle(env, PLAIN) == PLAIN
  {
    hide EncodePrimary, MarshalValue;
    NoChecksum(env, PLAIN);
    var blocks := PLAIN.extensions + [PLAIN.payload];
    assert blocks == [PLAIN.payload] && PLAIN.payload in blocks;
    var c := CrcBytes(env, CRC_NO, CanonicalCovered(PLAIN.payload).value).value;
    assert |c| == 0;
  }
}
