/** What a reader makes of anything that can be written: the same value or another one, but always up to the same byte. */
module ReadBack {
  import opened Bytes
  import opened Cbor
  import opened Endpoint
  import opened Blocks
  import opened BlockCodec
  import opened PrimaryCodec
  import opened BundleCodec

  /** The outcome of reading with these bytes behind. */
  function Reads<T>(v: Option<T>, t: seq<byte>): Parsed<T> {
    if v.Some? then Ok(v.value, t) else Fail
  }

  // ---------------------------------------------------------------- endpoints and the primary block

  function EndpointRead(e: EndpointID): Option<EndpointID> {
    if e.Dtn? then DtnFromText(Ssp(e.nodeName, e.demux)) else Some(e)
  }

  lemma SspIsRead(e: EndpointID, t: seq<byte>)
    requires Sized(e) && e.Dtn?
    ensures DecodeDtnSsp(EncodeSsp(e) + t) == Reads(DtnFromText(Ssp(e.nodeName, e.demux)), t)
  {
    hide Head, ReadMajors, DtnFromText, Ssp, Pow256;
    var text := Ssp(e.nodeName, e.demux);
    Associative(Head(MAJOR_TEXT, |text|), text, t);
    ReadHead(MAJOR_TEXT, |text|, text + t);
    assert ReadRaw(|text|, text + t) == Ok(text, t);
  }

  lemma EndpointIsRead(e: EndpointID, t: seq<byte>)
    requires Sized(e) && Endpoint.CheckValid(e)
    ensures DecodeEndpoint(EncodeEndpoint(e).value + t) == Reads(EndpointRead(e), t)
  {
    hide Head, ReadMajors, ReadPair, DtnFromText, ReadExpected, DecodeDtnSsp, DecodeIpnSsp, EncodeSsp, Ssp, Pow256;
    var ssp := EncodeSsp(e) + t;
    assert EncodeEndpoint(e).value + t == ArrayHead(2) + (UInt(SchemeNo(e)) + ssp);
    ReadArrayHead(2, UInt(SchemeNo(e)) + ssp);
    ReadUIntHead(SchemeNo(e), ssp);
    if e.Dtn? {
      SspIsRead(e, t);
    } else {
      SspRoundTrip(e, t);
    }
  }

  function EndpointsRead(pb: PrimaryBlock): Option<Trio> {
    var destination :- EndpointRead(pb.destination);
    var source :- EndpointRead(pb.source);
    var reportTo :- EndpointRead(pb.reportTo);
    Some(Trio(destination, source, reportTo))
  }

  lemma EndpointsAreRead(pb: PrimaryBlock, t: seq<byte>)
    requires Endpoints(pb).Some? && SizedPrimary(pb)
    ensures DecodeEndpoints(Endpoints(pb).value + t) == Reads(EndpointsRead(pb), t)
  {
    hide EncodeEndpoint, DecodeEndpoint, EndpointRead, Endpoint.CheckValid, Sized;
    EncodesIffValid(pb.destination);
    EncodesIffValid(pb.source);
    EncodesIffValid(pb.reportTo);
    var c := EncodeEndpoint(pb.reportTo).value + t;
    var b := EncodeEndpoint(pb.source).value + c;
    assert Endpoints(pb).value + t == EncodeEndpoint(pb.destination).value + b;
    EndpointIsRead(pb.destination, b);
    EndpointIsRead(pb.source, c);
    EndpointIsRead(pb.reportTo, t);
  }

  /** Version 7 is always written, and fragment fields in fragments only. */
  function PrimaryRead(env: Env, pb: PrimaryBlock): Option<PrimaryBlock>
    requires EncodePrimary(env, pb).Some?
  {
    var trio :- EndpointsRead(pb);
    Some(FilledPrimary(env, pb).(
           version := DTN_VERSION, destination := trio.destination, source := trio.source, reportTo := trio.reportTo,
           fragmentOffset := if pb.HasFragmentation() then pb.fragmentOffset else 0,
           totalDataLength := if pb.HasFragmentation() then pb.totalDataLength else 0))
  }

  lemma PrimaryIsRead(env: Env, pb: PrimaryBlock, t: seq<byte>)
    requires EncodePrimary(env, pb).Some? && SizedPrimary(pb)
    ensures DecodePrimary(env, EncodePrimary(env, pb).value + t) == Reads(PrimaryRead(env, pb), t)
  {
    hide DecodeStart, DecodeEndpoints, DecodeTimes, DecodeFragmentFields, ReadCrc, CrcField, CrcBytes, EndpointsRead;
    hide Start, Endpoints, Times, FragmentFields, WellFormed, Has, SizedPrimary;
    var covered := PrimaryCovered(pb).value;
    var endpoints := Endpoints(pb).value;
    var s4 := CrcField(env, pb.crcType, covered) + t;
    var s3 := FragmentFields(pb) + s4;
    var s2 := Times(pb) + s3;
    var s1 := endpoints + s2;
    assert EncodePrimary(env, pb).value + t == covered + s4;
    SplitCovered(Start(pb), endpoints, Times(pb), FragmentFields(pb), s4);
    StartRoundTrip(pb, s1);
    EndpointsAreRead(pb, s2);
    TimesRoundTrip(pb, s3);
    FragmentFieldsRoundTrip(pb, s4);
    ConsumedPrefix(covered, s4);
    CrcRoundTrip(env, pb.crcType, covered, t);
  }

  // ---------------------------------------------------------------- canonical blocks

  /** The value in the byte string of a block, read with the registry at hand. */
  function BlockRead(env: Env, cb: CanonicalBlock): Option<CanonicalBlock>
    requires EncodeCanonical(env, cb).Some?
  {
    var v :- UnmarshalValue(env, cb.TypeCode(), MarshalValue(cb.value).value);
    Some(Filled(env, cb).(value := v))
  }

  lemma BlockIsRead(env: Env, cb: CanonicalBlock, t: seq<byte>)
    requires EncodeCanonical(env, cb).Some? && SizedValue(cb.value)
    ensures DecodeCanonical(env, EncodeCanonical(env, cb).value + t) == Reads(BlockRead(env, cb), t)
  {
    hide DecodeSize, DecodeHead, ReadCrc, CrcField, CrcBytes, MarshalValue, UnmarshalValue, CanonicalHead, ArrayHead;
    hide ReadByteString, ByteString;
    var covered := CanonicalCovered(cb).value;
    var data := MarshalValue(cb.value).value;
    var s2 := CrcField(env, cb.crcType, covered) + t;
    var s1 := ByteString(data) + s2;
    var s0 := CanonicalHead(cb) + s1;
    assert EncodeCanonical(env, cb).value + t == ArrayHead(BlockCodec.ArraySize(cb)) + s0;
    SizeRoundTrip(cb, s0);
    HeadRoundTrip(cb, s1);
    ByteStringRoundTrip(data, s2);
    assert s0 == (CanonicalHead(cb) + ByteString(data)) + s2;
    ConsumedPrefix(CanonicalHead(cb) + ByteString(data), s2);
    CrcRoundTrip(env, cb.crcType, covered, t);
  }

  function BlocksRead(env: Env, blocks: seq<CanonicalBlock>): Option<seq<CanonicalBlock>>
    requires forall cb :: cb in blocks ==> EncodeCanonical(env, cb).Some?
  {
    if blocks == [] then Some([])
    else
      assert forall cb :: cb in blocks[1..] ==> cb in blocks;
      var first :- BlockRead(env, blocks[0]);
      var others :- BlocksRead(env, blocks[1..]);
      Some([first] + others)
  }

  lemma {:induction false} BlocksAreRead(env: Env, blocks: seq<CanonicalBlock>, t: seq<byte>)
    requires EncodeBlocks(env, blocks).Some? && AllSized(blocks)
    ensures DecodeBlocks(env, EncodeBlocks(env, blocks).value + ([BREAK_CODE] + t)) == Reads(BlocksRead(env, blocks), t)
  {
    hide DecodeCanonical, EncodeCanonical, BlockRead, SizedValue, AllSized;
    var end := [BREAK_CODE] + t;
    if blocks == [] {
      assert EncodeBlocks(env, blocks).value + end == end;
      BreakEndsBlocks(env, t);
    } else {
      var s1 := EncodeBlocks(env, blocks[1..]).value + end;
      HeadAndTail(env, blocks);
      Associative(EncodeCanonical(env, blocks[0]).value, EncodeBlocks(env, blocks[1..]).value, end);
      BlockIsRead(env, blocks[0], s1);
      BlocksAreRead(env, blocks[1..], t);
    }
  }

  // ---------------------------------------------------------------- bundles

  /** The bundle a reader gets, if it gets one. */
  function BundleRead(env: Env, b: Bundle): Option<Bundle>
    requires EncodeBundle(env, b).Some?
  {
    var primary :- PrimaryRead(env, b.primary);
    var blocks :- BlocksRead(env, b.extensions + [b.payload]);
    var payload :- LastPayload(blocks);
    var r := Bundle(primary, Extensions(blocks), payload);
    if CheckBundle(env, r) then Some(r) else None
  }

  /** Of everything that can be written a reader gets the same, whatever follows, and it stops just before that. What it gets
      is the bundle that was written, with checksums, exactly if that one is readable and valid. */
  lemma BundleIsRead(env: Env, b: Bundle, t: seq<byte>)
    requires EncodeBundle(env, b).Some? && SizedBundle(b)
    ensures DecodeBundle(env, EncodeBundle(env, b).value + t) == Reads(BundleRead(env, b), t)
    ensures BundleRead(env, b) == Some(FilledBundle(env, b)) <==> ReadableBundle(env, b) && CheckBundle(env, b)
  {
    hide EncodePrimary, DecodePrimary, PrimaryRead, EncodeBlocks, DecodeBlocks, BlocksRead, CheckBundle, Extensions, LastPayload;
    hide FilledPrimary, FilledBlocks, ReadableBundle, AllSized, SizedPrimary, EncodeCanonical;
    var blocks := b.extensions + [b.payload];
    var end := EncodeBlocks(env, blocks).value + ([BREAK_CODE] + t);
    SplitBundle(EncodePrimary(env, b.primary).value, EncodeBlocks(env, blocks).value, t);
    PrimaryIsRead(env, b.primary, end);
    BlocksAreRead(env, blocks, t);
    BundleRoundTrip(env, b, t);
  }
}
