/** Primary and canonical blocks written to and read from byte streams, each method against the codec's functions. */
module BlockStreams {
  import opened Bytes
  import opened Cbor
  import opened Streams
  import opened Endpoint
  import opened Blocks
  import opened BlockCodec
  import opened PrimaryCodec
  import opened PartialCodec

  // ---------------------------------------------------------------- writing

  /** A block after it was written: with a fresh checksum, or as it was when it has none. */
  function Stamped(env: Env, cb: CanonicalBlock): CanonicalBlock
    requires EncodeCanonical(env, cb).Some?
  {
    if cb.crcType == CRC_NO then cb else Filled(env, cb)
  }

  function StampedPrimary(env: Env, pb: PrimaryBlock): PrimaryBlock
    requires EncodePrimary(env, pb).Some?
  {
    if pb.crcType == CRC_NO then pb else FilledPrimary(env, pb)
  }

  method MarshalHead(cb: CanonicalBlock, w: Writer)
    modifies w
    ensures w.Appended(CanonicalHead(cb))
  {
    hide UInt;
    w.Write(UInt(cb.TypeCode()));
    w.Write(UInt(cb.number));
    w.Write(UInt(cb.flags));
    w.Write(UInt(cb.crcType));
  }

  /** The fields before the checksum, copied to the checksum buffer when there is one. */
  method MarshalCovered(cb: CanonicalBlock, w: Writer) returns (ok: bool)
    modifies w
    ensures ok <==> CanonicalCovered(cb).Some?
    ensures ok ==> w.Appended(CanonicalCovered(cb).value)
  {
    hide CanonicalHead, ArrayHead, ByteString, MarshalValue;
    var data := MarshalValue(cb.value);
    w.Write(ArrayHead(BlockCodec.ArraySize(cb)));
    MarshalHead(cb, w);
    if data.None? {
      return false;
    }
    w.Write(ByteString(data.value));
    return true;
  }

  method MarshalCanonical(env: Env, cb: CanonicalBlock, w: Writer) returns (ok: bool, stamped: CanonicalBlock)
    requires !w.copying
    modifies w
    ensures ok <==> EncodeCanonical(env, cb).Some?
    ensures ok ==> w.data == old(w.data) + EncodeCanonical(env, cb).value && stamped == Stamped(env, cb)
    ensures !w.copying
  {
    hide CanonicalCovered, CrcBytes, ByteString;
    stamped := cb;
    if cb.crcType != CRC_NO {
      w.StartCopy();
    }
    ok := MarshalCovered(cb, w);
    var covered := w.copy;
    w.StopCopy();
    if !ok || cb.crcType == CRC_NO {
      return;
    }
    assert covered == CanonicalCovered(cb).value;
    var crc := CrcBytes(env, cb.crcType, covered);
    if crc.None? {
      return false, cb;
    }
    w.Write(ByteString(crc.value));
    return true, cb.(crc := crc.value);
  }

  method MarshalEndpoints(pb: PrimaryBlock, w: Writer) returns (ok: bool)
    modifies w
    ensures ok <==> Endpoints(pb).Some?
    ensures ok ==> w.Appended(Endpoints(pb).value)
  {
    hide EncodeEndpoint;
    ok := MarshalEndpoint(pb.destination, w);
    if !ok {
      return;
    }
    ok := MarshalEndpoint(pb.source, w);
    if !ok {
      return;
    }
    ok := MarshalEndpoint(pb.reportTo, w);
  }

  method MarshalTimes(pb: PrimaryBlock, w: Writer)
    modifies w
    ensures w.Appended(Times(pb) + FragmentFields(pb))
  {
    hide UInt, ArrayHead;
    w.Write(EncodeTimestamp(pb.timestamp));
    w.Write(UInt(pb.lifetime));
    if pb.HasFragmentation() {
      w.Write(UInt(pb.fragmentOffset));
      w.Write(UInt(pb.totalDataLength));
    }
  }

  method MarshalPrimaryCovered(pb: PrimaryBlock, w: Writer) returns (ok: bool)
    modifies w
    ensures ok <==> PrimaryCovered(pb).Some?
    ensures ok ==> w.Appended(PrimaryCovered(pb).value)
  {
    hide Start, Endpoints, Times, FragmentFields;
    w.Write(Start(pb));
    ok := MarshalEndpoints(pb, w);
    if ok {
      MarshalTimes(pb, w);
    }
  }

  method MarshalPrimary(env: Env, pb: PrimaryBlock, w: Writer) returns (ok: bool, stamped: PrimaryBlock)
    requires !w.copying
    modifies w
    ensures ok <==> EncodePrimary(env, pb).Some?
    ensures ok ==> w.data == old(w.data) + EncodePrimary(env, pb).value && stamped == StampedPrimary(env, pb)
    ensures !w.copying
  {
    hide PrimaryCovered, CrcBytes, ByteString;
    stamped := pb;
    w.StartCopy();
    ok := MarshalPrimaryCovered(pb, w);
    var covered := w.copy;
    w.StopCopy();
    if !ok || pb.crcType == CRC_NO {
      return;
    }
    assert covered == PrimaryCovered(pb).value;
    var crc := CrcBytes(env, pb.crcType, covered);
    if crc.None? {
      return false, pb;
    }
    w.Write(ByteString(crc.value));
    return true, pb.(crc := crc.value);
  }

  // ---------------------------------------------------------------- reading

  method UnmarshalSize(r: Reader) returns (size: Outcome<uint64>)
    modifies r
    ensures size == DecodeSize(old(r.rest)).Outcome()
    ensures !size.Failed? ==> r.rest == DecodeSize(old(r.rest)).rest
    ensures r.Advanced()
  {
    hide Cbor.ReadArrayLength, IsSuffix, Consumed;
    var n :- r.ReadArrayLength();
    return if n == 5 || n == 6 then Got(n) else Failed;
  }

  method UnmarshalHead(r: Reader) returns (head: Outcome<BlockHead>)
    modifies r
    ensures head == DecodeHead(old(r.rest)).Outcome()
    ensures !head.Failed? ==> r.rest == DecodeHead(old(r.rest)).rest
    ensures r.Advanced()
  {
    hide Cbor.ReadPair, IsSuffix, Consumed;
    var first :- r.ReadPair();
    label L:
    var fields := r.ReadPair();
    SuffixTransitive(r.rest, old@L(r.rest), old(r.rest));
    var second :- fields;
    return Got(BlockHead(first.0, first.1, second.0, second.1));
  }

  method UnmarshalBlock(env: Env, code: uint64, r: Reader) returns (v: Outcome<ExtensionBlock>)
    modifies r
    ensures v == ReadBlock(env, code, old(r.rest)).Outcome()
    ensures !v.Failed? ==> r.rest == ReadBlock(env, code, old(r.rest)).rest
    ensures r.Advanced()
  {
    hide Cbor.ReadByteString, IsSuffix, Consumed, UnmarshalValue;
    var data :- r.ReadByteString();
    var value := UnmarshalValue(env, code, data);
    return if value.Some? then Got(value.value) else Failed;
  }

  /** The bytes covered are those in the tee. */
  method UnmarshalCrc(env: Env, present: bool, crcType: uint64, r: Reader) returns (c: Outcome<seq<byte>>)
    modifies r
    ensures var p := ReadCrc(env, present, crcType, old(r.tee), old(r.rest));
            c == p.Outcome() && (!c.Failed? ==> r.rest == p.rest)
  {
    hide Cbor.ReadByteString, IsSuffix, Consumed, CrcBytes;
    if !present {
      return Got([]);
    }
    var expected := CrcBytes(env, crcType, r.tee);
    if expected.None? {
      return Failed;
    }
    var crc :- r.ReadByteString();
    return if crc == expected.value then Got(crc) else Failed;
  }

  /** A block after its array head; its bytes are teed if it has a checksum. */
  method UnmarshalBody(env: Env, size: uint64, r: Reader) returns (cb: Outcome<CanonicalBlock>)
    requires r.teeing && r.tee == ArrayHead(size)
    modifies r
    ensures var p := DecodeBody(env, size, old(r.rest));
            cb == p.Outcome() && (!cb.Failed? ==> r.rest == p.rest)
  {
    hide DecodeHead, ReadBlock, ReadCrc, IsSuffix, Consumed, ArrayHead;
    var head :- UnmarshalHead(r);
    label L:
    var block := UnmarshalBlock(env, head.code, r);
    SuffixTransitive(r.rest, old@L(r.rest), old(r.rest));
    var v :- block.Wrapped();
    assert r.tee == ArrayHead(size) + Consumed(old(r.rest), r.rest);
    var crc :- UnmarshalCrc(env, size == 6, head.crcType, r);
    return Got(CanonicalBlock(head.number, head.flags, head.crcType, crc, v));
  }

  method UnmarshalCanonical(env: Env, r: Reader) returns (cb: Outcome<CanonicalBlock>)
    requires !r.teeing
    modifies r
    ensures var p := DecodeCanonical(env, old(r.rest));
            cb == p.Outcome() && (!cb.Failed? ==> r.rest == p.rest)
    ensures !r.teeing
  {
    hide DecodeSize, DecodeBody, ArrayHead;
    var size :- UnmarshalSize(r);
    r.StartTee(ArrayHead(size));
    cb := UnmarshalBody(env, size, r);
    r.StopTee();
  }

  // ---------------------------------------------------------------- the partial reader

  method SkipData(n: uint64, seekable: bool, r: Reader) returns (ok: bool)
    modifies r
    ensures var p := Skip(n, seekable, old(r.rest)); ok == p.Some? && (ok ==> r.rest == p.value)
    ensures r.teeing == old(r.teeing)
  {
    if n >= INT64_LIMIT {
      return !seekable;
    } else if n <= |r.rest| {
      r.rest := r.rest[n..];
      return true;
    } else if seekable {
      r.rest := [];
      return true;
    }
    return false;
  }

  method SkipCanonical(size: uint64, code: uint64, seekable: bool, r: Reader) returns (w: Wanted)
    modifies r
    ensures w == SkipBlock(size, code, seekable, old(r.rest))
    ensures w.Skipped? ==> r.rest == w.rest
    ensures r.teeing == old(r.teeing)
  {
    hide Cbor.ReadByteString, Cbor.ReadByteStringLen, Skip, IsSuffix, Consumed;
    var length := r.ReadByteStringLen();
    if !length.Got? {
      return if length.Broke? then Stop else Abort;
    }
    var ok := SkipData(length.value, seekable, r);
    if !ok {
      return Abort;
    } else if size == 5 {
      return Skipped(code, r.rest);
    }
    var crc := r.ReadByteString();
    if crc.Got? {
      return Skipped(code, r.rest);
    }
    return AfterError(crc.Broke?, code);
  }

  /** The data and checksum of a wanted block whose head was read from `s0`. */
  method UnmarshalData(env: Env, size: uint64, head: BlockHead, r: Reader, ghost s0: seq<byte>) returns (w: Wanted)
    requires r.teeing && IsSuffix(r.rest, s0) && r.tee == ArrayHead(size) + Consumed(s0, r.rest)
    modifies r
    ensures w == ReadWanted(env, size, s0, head, old(r.rest))
    ensures w.Read? ==> r.rest == w.rest
  {
    hide ReadBlock, ReadCrc, IsSuffix, Consumed, ArrayHead;
    var v := UnmarshalBlock(env, head.code, r);
    SuffixTransitive(r.rest, old(r.rest), s0);
    if !v.Got? {
      return Abort;
    }
    assert r.tee == ArrayHead(size) + Consumed(s0, r.rest);
    var crc := UnmarshalCrc(env, size == 6, head.crcType, r);
    if crc.Got? {
      return Read(CanonicalBlock(head.number, head.flags, head.crcType, crc.value, v.value), r.rest);
    }
    return AfterError(crc.Broke?, head.code);
  }

  method UnmarshalWanted(env: Env, r: Reader, wanted: seq<uint64>, seekable: bool) returns (w: Wanted)
    requires !r.teeing
    modifies r
    ensures w == DecodeWanted(env, old(r.rest), wanted, seekable)
    ensures w.Read? || w.Skipped? ==> r.rest == w.rest
    ensures !r.teeing
  {
    hide DecodeSize, DecodeHead, ReadWanted, SkipBlock, IsSuffix, Consumed, ArrayHead;
    var size := UnmarshalSize(r);
    if !size.Got? {
      return if size.Broke? then Stop else Abort;
    }
    ghost var s0 := r.rest;
    r.StartTee(ArrayHead(size.value));
    var head := UnmarshalHead(r);
    if !head.Got? {
      w := if head.Broke? then Stop else Abort;
    } else if head.value.code in wanted {
      w := UnmarshalData(env, size.value, head.value, r, s0);
    } else {
      w := SkipCanonical(size.value, head.value.code, seekable, r);
    }
    r.StopTee();
  }

  // ---------------------------------------------------------------- the primary block

  method UnmarshalVersion(r: Reader) returns (size: Outcome<uint64>)
    modifies r
    ensures size == DecodeVersion(old(r.rest)).Outcome()
    ensures !size.Failed? ==> r.rest == DecodeVersion(old(r.rest)).rest
    ensures r.Advanced()
  {
    hide Cbor.ReadUInt, Cbor.ReadArrayLength, IsSuffix, Consumed;
    var n :- r.ReadArrayLength();
    if !(8 <= n <= 11) {
      return Failed;
    }
    label L:
    var second := r.ReadUInt();
    SuffixTransitive(r.rest, old@L(r.rest), old(r.rest));
    var version :- second;
    return if version == DTN_VERSION then Got(n) else Failed;
  }

  method UnmarshalStart(r: Reader) returns (start: Outcome<PrimaryStart>)
    modifies r
    ensures start == DecodeStart(old(r.rest)).Outcome()
    ensures !start.Failed? ==> r.rest == DecodeStart(old(r.rest)).rest
    ensures r.Advanced()
  {
    hide Cbor.ReadPair, DecodeVersion, IsSuffix, Consumed;
    var size :- UnmarshalVersion(r);
    label L:
    var second := r.ReadPair();
    SuffixTransitive(r.rest, old@L(r.rest), old(r.rest));
    var fields :- second;
    return Got(PrimaryStart(size, fields.0, fields.1));
  }

  method UnmarshalEndpoints(r: Reader) returns (trio: Outcome<Trio>)
    modifies r
    ensures trio == DecodeEndpoints(old(r.rest)).Outcome()
    ensures !trio.Failed? ==> r.rest == DecodeEndpoints(old(r.rest)).rest
    ensures r.Advanced()
  {
    hide DecodeEndpoint, IsSuffix, Consumed;
    var first := UnmarshalEndpoint(r);
    var destination :- first.Wrapped();
    label L:
    var second := UnmarshalEndpoint(r);
    SuffixTransitive(r.rest, old@L(r.rest), old(r.rest));
    var source :- second.Wrapped();
    label M:
    var third := UnmarshalEndpoint(r);
    SuffixTransitive(r.rest, old@M(r.rest), old(r.rest));
    var reportTo :- third.Wrapped();
    return Got(Trio(destination, source, reportTo));
  }

  method UnmarshalTimestamp(r: Reader) returns (ts: Outcome<Timestamp>)
    modifies r
    ensures ts == DecodeTimestamp(old(r.rest)).Outcome()
    ensures !ts.Failed? ==> r.rest == DecodeTimestamp(old(r.rest)).rest
    ensures r.Advanced()
  {
    hide Cbor.ReadPair, Cbor.ReadArrayLength, IsSuffix, Consumed;
    var n :- r.ReadArrayLength();
    if n != 2 {
      return Failed;
    }
    label L:
    var second := r.ReadPair();
    SuffixTransitive(r.rest, old@L(r.rest), old(r.rest));
    var fields :- second;
    return Got(Timestamp(fields.0, fields.1));
  }

  method UnmarshalTimes(r: Reader) returns (times: Outcome<(Timestamp, uint64)>)
    modifies r
    ensures times == DecodeTimes(old(r.rest)).Outcome()
    ensures !times.Failed? ==> r.rest == DecodeTimes(old(r.rest)).rest
    ensures r.Advanced()
  {
    hide DecodeTimestamp, Cbor.ReadUInt, IsSuffix, Consumed;
    var first := UnmarshalTimestamp(r);
    var timestamp :- first.Wrapped();
    label L:
    var second := r.ReadUInt();
    SuffixTransitive(r.rest, old@L(r.rest), old(r.rest));
    var lifetime :- second;
    return Got((timestamp, lifetime));
  }

  method UnmarshalFragmentFields(present: bool, r: Reader) returns (frag: Outcome<(uint64, uint64)>)
    modifies r
    ensures frag == DecodeFragmentFields(present, old(r.rest)).Outcome()
    ensures !frag.Failed? ==> r.rest == DecodeFragmentFields(present, old(r.rest)).rest
    ensures r.Advanced()
  {
    hide Cbor.ReadPair;
    if present {
      frag := r.ReadPair();
    } else {
      assert Consumed(r.rest, r.rest) == [];
      frag := Got((0, 0));
    }
  }

  method UnmarshalAddressing(r: Reader) returns (p: Outcome<(PrimaryStart, Trio)>)
    modifies r
    ensures p == DecodeAddressing(old(r.rest)).Outcome()
    ensures !p.Failed? ==> r.rest == DecodeAddressing(old(r.rest)).rest
    ensures r.Advanced()
  {
    hide DecodeStart, DecodeEndpoints, IsSuffix, Consumed;
    var start :- UnmarshalStart(r);
    label L:
    var second := UnmarshalEndpoints(r);
    SuffixTransitive(r.rest, old@L(r.rest), old(r.rest));
    var trio :- second;
    return Got((start, trio));
  }

  method UnmarshalLife(fragment: bool, r: Reader) returns (p: Outcome<((Timestamp, uint64), (uint64, uint64))>)
    modifies r
    ensures p == DecodeLife(fragment, old(r.rest)).Outcome()
    ensures !p.Failed? ==> r.rest == DecodeLife(fragment, old(r.rest)).rest
    ensures r.Advanced()
  {
    hide DecodeTimes, DecodeFragmentFields, IsSuffix, Consumed;
    var times :- UnmarshalTimes(r);
    label L:
    var second := UnmarshalFragmentFields(fragment, r);
    SuffixTransitive(r.rest, old@L(r.rest), old(r.rest));
    var frag :- second;
    return Got((times, frag));
  }

  method UnmarshalFields(r: Reader) returns (fields: Outcome<(uint64, PrimaryBlock)>)
    modifies r
    ensures fields == DecodeFields(old(r.rest)).Outcome()
    ensures !fields.Failed? ==> r.rest == DecodeFields(old(r.rest)).rest
    ensures r.Advanced()
  {
    hide DecodeAddressing, DecodeLife, IsSuffix, Consumed, Fields;
    var addressing :- UnmarshalAddressing(r);
    var (start, trio) := addressing;
    label L:
    var second := UnmarshalLife(start.size >= 10, r);
    SuffixTransitive(r.rest, old@L(r.rest), old(r.rest));
    var life :- second;
    return Got((start.size, Fields(start, trio, life.0, life.1)));
  }

  /** `before` is what the record held. */
  method UnmarshalPrimary(env: Env, r: Reader, before: PrimaryBlock) returns (pb: Outcome<PrimaryBlock>)
    requires !r.teeing
    modifies r
    ensures pb == DecodePrimaryInto(env, before, old(r.rest)).Outcome()
    ensures !pb.Failed? ==> r.rest == DecodePrimaryInto(env, before, old(r.rest)).rest
    ensures !r.teeing
  {
    hide DecodeFields, ReadCrc, IsSuffix, Consumed;
    r.StartTee([]);
    var first := UnmarshalFields(r);
    if !first.Got? {
      r.StopTee();
      return first.PropagateFailure();
    }
    var (size, fields) := first.value;
    assert r.tee == Consumed(old(r.rest), r.rest);
    var crc := UnmarshalCrc(env, size == 9 || size == 11, fields.crcType, r);
    r.StopTee();
    if !crc.Got? {
      return crc.PropagateFailure();
    }
    return Got(Over(before, size, fields.(crc := crc.value)));
  }
}
