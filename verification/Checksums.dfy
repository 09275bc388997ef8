/** What checksums are good for: a block with any checksum but its own is refused, and whatever is received, block by
    block, carries the checksum of its bytes. All statements spell out the bytes and the two checksum functions. */
module Checksums {
  import opened Bytes
  import opened Cbor
  import opened Endpoint
  import opened Blocks
  import opened BlockCodec
  import opened PrimaryCodec
  import opened BundleCodec
  import opened PartialCodec
  import opened BlockStreams

  /** CRC type 1: the CRC-16 in two bytes, most significant first, of the covered bytes and a byte string of two zeros. Type
      2: the CRC-32 in four bytes, of the covered bytes and a byte string of four zeros. */
  function Checksum(env: Env, crcType: uint64, covered: seq<byte>): seq<byte>
    requires crcType == 1 || crcType == 2
  {
    if crcType == 1 then
      var n := env.crc16(covered + [0x42, 0, 0]);
      [n / 0x100, n % 0x100]
    else
      var n := env.crc32(covered + [0x44, 0, 0, 0, 0]);
      [n / 0x100_0000, n / 0x1_0000 % 0x100, n / 0x100 % 0x100, n % 0x100]
  }

  /** The checksum that stands after these bytes: none for type 0, and no other type than 0, 1 and 2. */
  ghost predicate Carries(env: Env, crcType: uint64, covered: seq<byte>, crc: seq<byte>) {
    if crcType == 0 then crc == [] else crcType <= 2 && crc == Checksum(env, crcType, covered)
  }

  lemma CrcBytesAre(env: Env, crcType: uint64, covered: seq<byte>)
    requires crcType == 1 || crcType == 2
    ensures CrcBytes(env, crcType, covered) == Some(Checksum(env, crcType, covered))
  {
    if crcType == 1 {
      assert ByteString([0, 0]) == [0x42, 0, 0];
      TwoBytes(env.crc16(covered + [0x42, 0, 0]));
    } else {
      assert ByteString([0, 0, 0, 0]) == [0x44, 0, 0, 0, 0];
      FourBytes(env.crc32(covered + [0x44, 0, 0, 0, 0]));
    }
  }

  /** A checksum field with other bytes than the checksum. */
  lemma OtherCrcFails(env: Env, crcType: uint64, covered: seq<byte>, c: seq<byte>, t: seq<byte>)
    requires (crcType == 1 || crcType == 2) && |c| < TWO_TO_THE_64 && c != Checksum(env, crcType, covered)
    ensures ReadCrc(env, true, crcType, covered, ByteString(c) + t) == Fail
  {
    hide CrcBytes, ReadByteString, ByteString;
    CrcBytesAre(env, crcType, covered);
    ByteStringRoundTrip(c, t);
  }

  // ---------------------------------------------------------------- a wrong checksum is refused

  /** A written block ends with its checksum; with any other checksum in its place it is not read. */
  lemma WrongBlockChecksum(env: Env, cb: CanonicalBlock, c: seq<byte>, t: seq<byte>)
    requires EncodeCanonical(env, cb).Some? && SizedValue(cb.value)
    requires (cb.crcType == 1 || cb.crcType == 2) && |c| < TWO_TO_THE_64
    ensures var covered := CanonicalCovered(cb).value;
            && EncodeCanonical(env, cb).value == covered + ByteString(Checksum(env, cb.crcType, covered))
            && (c != Checksum(env, cb.crcType, covered) ==> DecodeCanonical(env, covered + ByteString(c) + t) == Fail)
  {
    hide DecodeSize, DecodeHead, ReadBlock, ReadCrc, CrcBytes, MarshalValue, CanonicalHead, ByteString, ArrayHead, Checksum;
    var covered := CanonicalCovered(cb).value;
    CrcBytesAre(env, cb.crcType, covered);
    var data := MarshalValue(cb.value).value;
    var s2 := ByteString(c) + t;
    var s1 := ByteString(data) + s2;
    var s0 := CanonicalHead(cb) + s1;
    assert covered + ByteString(c) + t == ArrayHead(BlockCodec.ArraySize(cb)) + s0;
    SizeRoundTrip(cb, s0);
    HeadRoundTrip(cb, s1);
    ReadBlockRoundTrip(env, cb.value, s2);
    assert s0 == (CanonicalHead(cb) + ByteString(data)) + s2;
    ConsumedPrefix(CanonicalHead(cb) + ByteString(data), s2);
    if c != Checksum(env, cb.crcType, covered) {
      OtherCrcFails(env, cb.crcType, covered, c, t);
    }
  }

  lemma WrongPrimaryChecksum(env: Env, pb: PrimaryBlock, c: seq<byte>, t: seq<byte>)
    requires EncodePrimary(env, pb).Some? && SizedPrimary(pb)
    requires (pb.crcType == 1 || pb.crcType == 2) && |c| < TWO_TO_THE_64
    ensures var covered := PrimaryCovered(pb).value;
            && EncodePrimary(env, pb).value == covered + ByteString(Checksum(env, pb.crcType, covered))
            && (c != Checksum(env, pb.crcType, covered) ==> DecodePrimary(env, covered + ByteString(c) + t) == Fail)
  {
    hide DecodeStart, DecodeEndpoints, DecodeTimes, DecodeFragmentFields, ReadCrc, CrcBytes, ByteString, Checksum;
    hide Start, Endpoints, Times, FragmentFields, WellFormed, Has, SizedPrimary;
    var covered := PrimaryCovered(pb).value;
    CrcBytesAre(env, pb.crcType, covered);
    var endpoints := Endpoints(pb).value;
    var s4 := ByteString(c) + t;
    var s3 := FragmentFields(pb) + s4;
    var s2 := Times(pb) + s3;
    var s1 := endpoints + s2;
    assert covered + ByteString(c) + t == covered + s4;
    SplitCovered(Start(pb), endpoints, Times(pb), FragmentFields(pb), s4);
    StartRoundTrip(pb, s1);
    EndpointsRoundTrip(pb, s2);
    TimesRoundTrip(pb, s3);
    FragmentFieldsRoundTrip(pb, s4);
    ConsumedPrefix(covered, s4);
    if c != Checksum(env, pb.crcType, covered) {
      OtherCrcFails(env, pb.crcType, covered, c, t);
    }
  }

  /** A block that was written has its checksum on record, or is as it was when it has none. */
  lemma StampIsWritten(env: Env, cb: CanonicalBlock)
    requires EncodeCanonical(env, cb).Some?
    ensures var stamped := Stamped(env, cb);
            && stamped == cb.(crc := stamped.crc) && (cb.crcType == 0 ==> stamped == cb)
            && (cb.crcType != 0 ==> EncodeCanonical(env, cb).value == CanonicalCovered(cb).value + ByteString(stamped.crc))
  {
    hide CanonicalCovered, CrcBytes, ByteString;
  }

  lemma PrimaryStampIsWritten(env: Env, pb: PrimaryBlock)
    requires EncodePrimary(env, pb).Some?
    ensures var stamped := StampedPrimary(env, pb);
            && stamped == pb.(crc := stamped.crc) && (pb.crcType == 0 ==> stamped == pb)
            && (pb.crcType != 0 ==> EncodePrimary(env, pb).value == PrimaryCovered(pb).value + ByteString(stamped.crc))
  {
    hide PrimaryCovered, CrcBytes, ByteString;
  }

  /** After blocks that were written, whatever cannot be read fails the whole list. */
  lemma {:induction false} FailsAfter(env: Env, blocks: seq<CanonicalBlock>, x: seq<byte>)
    requires EncodeBlocks(env, blocks).Some? && AllSized(blocks) && DecodeCanonical(env, x) == Fail
    ensures DecodeBlocks(env, EncodeBlocks(env, blocks).value + x) == Fail
  {
    hide DecodeCanonical, EncodeCanonical, SizedValue, AllSized, Readable;
    var s := EncodeBlocks(env, blocks).value + x;
    if blocks == [] {
      assert s == x;
    } else {
      var s1 := EncodeBlocks(env, blocks[1..]).value + x;
      HeadAndTail(env, blocks);
      Associative(EncodeCanonical(env, blocks[0]).value, EncodeBlocks(env, blocks[1..]).value, x);
      CanonicalRoundTrip(env, blocks[0], s1);
      FailsAfter(env, blocks[1..], x);
    }
  }

  lemma {:induction false} SplitBlocks(env: Env, blocks: seq<CanonicalBlock>, k: nat)
    requires k < |blocks| && EncodeBlocks(env, blocks).Some?
    ensures EncodeBlocks(env, blocks[..k]).Some? && EncodeBlocks(env, blocks[k + 1..]).Some?
    ensures EncodeCanonical(env, blocks[k]).Some?
    ensures EncodeBlocks(env, blocks).value
         == EncodeBlocks(env, blocks[..k]).value
            + (EncodeCanonical(env, blocks[k]).value + EncodeBlocks(env, blocks[k + 1..]).value)
  {
    hide EncodeCanonical;
    assert blocks == [blocks[0]] + blocks[1..];
    if k == 0 {
      assert blocks[..0] == [];
    } else {
      SplitBlocks(env, blocks[1..], k - 1);
      assert blocks[1..][..k - 1] == blocks[..k][1..] && blocks[1..][k..] == blocks[k + 1..];
      var middle := EncodeCanonical(env, blocks[k]).value + EncodeBlocks(env, blocks[k + 1..]).value;
      assert forall cb :: cb in blocks[..k] ==> cb in blocks;
      Associative(EncodeCanonical(env, blocks[0]).value, EncodeBlocks(env, blocks[1..][..k - 1]).value, middle);
    }
  }

  /** After a written primary block and written blocks, whatever cannot be read fails the bundle. */
  lemma BundleFailsAfter(env: Env, pb: PrimaryBlock, blocks: seq<CanonicalBlock>, x: seq<byte>)
    requires EncodePrimary(env, pb).Some? && SizedPrimary(pb) && EncodeBlocks(env, blocks).Some? && AllSized(blocks)
    requires DecodeCanonical(env, x) == Fail
    ensures DecodeBundle(env, [0x9F] + (EncodePrimary(env, pb).value + (EncodeBlocks(env, blocks).value + x))) == Fail
  {
    hide EncodeBlocks, EncodePrimary, DecodePrimary, DecodeBlocks, DecodeCanonical;
    hide AllSized, SizedPrimary, ReadablePrimary, CheckBundle, FilledPrimary;
    var s1 := EncodePrimary(env, pb).value + (EncodeBlocks(env, blocks).value + x);
    assert ([0x9F] + s1)[0] == 0x9F && ([0x9F] + s1)[1..] == s1;
    PrimaryRoundTrip(env, pb, EncodeBlocks(env, blocks).value + x);
    FailsAfter(env, blocks, x);
  }

  lemma SizedPrefix(blocks: seq<CanonicalBlock>, k: nat)
    requires k < |blocks| && AllSized(blocks)
    ensures AllSized(blocks[..k]) && SizedValue(blocks[k].value)
  {
    hide SizedValue;
    assert forall cb :: cb in blocks[..k] ==> cb in blocks;
  }

  /** One of the blocks of a written bundle with another checksum, and anything behind it: the bundle is refused. */
  lemma CorruptedBlockIsRefused(env: Env, b: Bundle, k: nat, c: seq<byte>, t: seq<byte>)
    requires EncodeBundle(env, b).Some? && SizedBundle(b) && k <= |b.extensions| && |c| < TWO_TO_THE_64
    requires var cb := (b.extensions + [b.payload])[k]; cb.crcType == 1 || cb.crcType == 2
    ensures var blocks := b.extensions + [b.payload];
            var covered := CanonicalCovered(blocks[k]);
            && covered.Some? && EncodeBlocks(env, blocks[..k]).Some? && EncodeBlocks(env, blocks[k + 1..]).Some?
            && var before := [0x9F] + EncodePrimary(env, b.primary).value + EncodeBlocks(env, blocks[..k]).value + covered.value;
               var right := Checksum(env, blocks[k].crcType, covered.value);
               && EncodeBundle(env, b).value
                  == before + ByteString(right) + (EncodeBlocks(env, blocks[k + 1..]).value + [0xFF])
               && (c != right ==> DecodeBundle(env, before + ByteString(c) + t) == Fail)
  {
    hide EncodeBlocks, EncodePrimary, EncodeCanonical, DecodeBundle, DecodeCanonical, CanonicalCovered;
    hide ByteString, Checksum, AllSized, SizedValue, SizedPrimary;
    var blocks := b.extensions + [b.payload];
    SplitBlocks(env, blocks, k);
    Written(env, blocks[k]);
    SizedPrefix(blocks, k);
    WrongBlockChecksum(env, blocks[k], c, t);
    var covered := CanonicalCovered(blocks[k]).value;
    var primary, front := EncodePrimary(env, b.primary).value, EncodeBlocks(env, blocks[..k]).value;
    Regroup(primary, front, covered, ByteString(Checksum(env, blocks[k].crcType, covered)), EncodeBlocks(env, blocks[k + 1..]).value);
    if c != Checksum(env, blocks[k].crcType, covered) {
      var x := covered + ByteString(c) + t;
      RegroupTo(primary, front, covered, ByteString(c), t);
      BundleFailsAfter(env, b.primary, blocks[..k], x);
    }
  }

  lemma Written(env: Env, cb: CanonicalBlock)
    requires EncodeCanonical(env, cb).Some?
    ensures CanonicalCovered(cb).Some?
  {
  }

  lemma RegroupTo(p: seq<byte>, a: seq<byte>, covered: seq<byte>, crc: seq<byte>, t: seq<byte>)
    ensures [0x9F] + (p + (a + (covered + crc + t))) == ([0x9F] + p + a + covered) + crc + t
  {
  }

  lemma Regroup(p: seq<byte>, a: seq<byte>, covered: seq<byte>, crc: seq<byte>, z: seq<byte>)
    ensures [0x9F] + (p + ((a + ((covered + crc) + z)) + [0xFF])) == ([0x9F] + p + a + covered) + crc + (z + [0xFF])
  {
  }

  /** The same for the primary block. */
  lemma CorruptedPrimaryIsRefused(env: Env, b: Bundle, c: seq<byte>, t: seq<byte>)
    requires EncodeBundle(env, b).Some? && SizedBundle(b) && |c| < TWO_TO_THE_64
    requires b.primary.crcType == 1 || b.primary.crcType == 2
    ensures var covered := PrimaryCovered(b.primary).value;
            var right := Checksum(env, b.primary.crcType, covered);
            && EncodeBundle(env, b).value
               == [0x9F] + covered + ByteString(right) + (EncodeBlocks(env, b.extensions + [b.payload]).value + [0xFF])
            && (c != right ==> DecodeBundle(env, [0x9F] + covered + ByteString(c) + t) == Fail)
  {
    hide EncodeBlocks, DecodePrimary, DecodeBlocks, PrimaryCovered, ByteString, Checksum, CrcField;
    hide SizedPrimary, AllSized, CheckBundle;
    var covered := PrimaryCovered(b.primary).value;
    var right := Checksum(env, b.primary.crcType, covered);
    WrongPrimaryChecksum(env, b.primary, c, t);
    Regroup(covered + ByteString(right), [], [], [], EncodeBlocks(env, b.extensions + [b.payload]).value);
    if c != right {
      var s := [0x9F] + covered + ByteString(c) + t;
      assert s[0] == 0x9F && s[1..] == covered + ByteString(c) + t;
    }
  }

  // ---------------------------------------------------------------- whatever is read carries its checksum

  /** A reader leaves an end of the bytes it was given, and reports the break code that stands just before that end. */
  ghost predicate Leaves<T>(p: Parsed<T>, s: seq<byte>) {
    (p.Ok? ==> IsSuffix(p.rest, s)) && (p.Break? ==> IsSuffix([0xFF] + p.rest, s))
  }

  lemma LeavesThen<T, U>(p: Parsed<T>, q: Parsed<U>, s: seq<byte>)
    requires Leaves(p, s) && p.Ok? && Leaves(q, p.rest)
    ensures Leaves(q, s)
  {
    if q.Ok? {
      SuffixTransitive(q.rest, p.rest, s);
    } else if q.Break? {
      SuffixTransitive([0xFF] + q.rest, p.rest, s);
    }
  }

  lemma ArgumentLeaves(major: Major, k: nat, s: seq<byte>)
    requires k in {1, 2, 4, 8} && s != []
    ensures Leaves(ReadArgument(major, k, s[1..]), s)
  {
    hide FromBigEndian;
    var p := ReadArgument(major, k, s[1..]);
    if p.Ok? {
      assert s[1..][k..] == s[1 + k..];
    }
  }

  lemma MajorsLeave(s: seq<byte>)
    ensures Leaves(ReadMajors(s), s)
  {
    hide ReadArgument;
    if s != [] {
      var major := s[0] / 32;
      ArgumentLeaves(major, 1, s);
      ArgumentLeaves(major, 2, s);
      ArgumentLeaves(major, 4, s);
      ArgumentLeaves(major, 8, s);
      assert s[0] == BREAK_CODE ==> s == [0xFF] + s[1..];
    }
  }

  lemma ExpectedLeaves(major: Major, s: seq<byte>)
    ensures Leaves(ReadExpected(major, s), s)
  {
    hide ReadMajors, IsSuffix;
    MajorsLeave(s);
  }

  lemma PairLeaves(s: seq<byte>)
    ensures Leaves(ReadPair(s), s)
  {
    hide ReadExpected, IsSuffix;
    var p := ReadUInt(s);
    ExpectedLeaves(MAJOR_UINT, s);
    if p.Ok? {
      ExpectedLeaves(MAJOR_UINT, p.rest);
      LeavesThen(p, ReadUInt(p.rest), s);
    }
  }

  lemma RawLeaves(n: nat, s: seq<byte>)
    ensures Leaves(ReadRaw(n, s), s)
  {
  }

  lemma ByteStringLeaves(s: seq<byte>)
    ensures Leaves(ReadByteString(s), s)
  {
    hide ReadExpected, ReadRaw, IsSuffix;
    var p := ReadByteStringLen(s);
    ExpectedLeaves(MAJOR_BYTES, s);
    if p.Ok? {
      RawLeaves(p.value, p.rest);
      LeavesThen(p, ReadRaw(p.value, p.rest), s);
    }
  }

  lemma HeadLeaves(s: seq<byte>)
    ensures Leaves(DecodeHead(s), s)
  {
    hide ReadPair, IsSuffix;
    var p := ReadPair(s);
    PairLeaves(s);
    if p.Ok? {
      PairLeaves(p.rest);
      LeavesThen(p, ReadPair(p.rest), s);
    }
  }

  lemma ReadBlockLeaves(env: Env, code: uint64, s: seq<byte>)
    ensures Leaves(ReadBlock(env, code, s), s)
  {
    hide ReadByteString, UnmarshalValue, IsSuffix;
    ByteStringLeaves(s);
  }

  lemma EndpointLeaves(s: seq<byte>)
    ensures Leaves(DecodeEndpoint(s), s)
  {
    hide DecodeDtnSsp, DecodeIpnSsp, ReadExpected, IsSuffix;
    var n := ReadArrayLength(s);
    ExpectedLeaves(MAJOR_ARRAY, s);
    if n.Ok? {
      ExpectedLeaves(MAJOR_UINT, n.rest);
      LeavesThen(n, ReadUInt(n.rest), s);
    }
    var p := DecodeScheme(s);
    if p.Ok? {
      DtnSspLeaves(p.rest);
      IpnSspLeaves(p.rest);
      LeavesThen(p, DecodeDtnSsp(p.rest), s);
      LeavesThen(p, DecodeIpnSsp(p.rest), s);
    }
  }

  lemma DtnSspLeaves(s: seq<byte>)
    ensures Leaves(DecodeDtnSsp(s), s)
  {
    hide ReadMajors, ReadRaw, DtnFromText, IsSuffix;
    var p := ReadMajors(s);
    MajorsLeave(s);
    if p.Ok? {
      RawLeaves(p.value.1, p.rest);
      LeavesThen(p, ReadRaw(p.value.1, p.rest), s);
    }
  }

  lemma IpnSspLeaves(s: seq<byte>)
    ensures Leaves(DecodeIpnSsp(s), s)
  {
    hide ReadExpected, ReadPair, IsSuffix;
    var p := ReadArrayLength(s);
    ExpectedLeaves(MAJOR_ARRAY, s);
    if p.Ok? {
      PairLeaves(p.rest);
      LeavesThen(p, ReadPair(p.rest), s);
    }
  }

  lemma StartLeaves(s: seq<byte>)
    ensures Leaves(DecodeStart(s), s)
  {
    hide ReadExpected, ReadPair, IsSuffix;
    var n := ReadArrayLength(s);
    ExpectedLeaves(MAJOR_ARRAY, s);
    if n.Ok? {
      ExpectedLeaves(MAJOR_UINT, n.rest);
      LeavesThen(n, ReadUInt(n.rest), s);
    }
    var p := DecodeVersion(s);
    if p.Ok? {
      PairLeaves(p.rest);
      LeavesThen(p, ReadPair(p.rest), s);
    }
  }

  lemma EndpointsLeave(s: seq<byte>)
    ensures Leaves(DecodeEndpoints(s), s)
  {
    hide DecodeEndpoint, IsSuffix;
    var p := DecodeEndpoint(s);
    EndpointLeaves(s);
    if p.Ok? {
      EndpointLeaves(p.rest);
      var q := DecodeEndpoint(p.rest);
      LeavesThen(p, q, s);
      if q.Ok? {
        EndpointLeaves(q.rest);
        LeavesThen(q, DecodeEndpoint(q.rest), s);
      }
    }
  }

  lemma LifeLeaves(fragment: bool, s: seq<byte>)
    ensures Leaves(DecodeLife(fragment, s), s)
  {
    hide DecodeTimestamp, ReadExpected, ReadPair, IsSuffix;
    var p := DecodeTimestamp(s);
    TimestampLeaves(s);
    if p.Ok? {
      ExpectedLeaves(MAJOR_UINT, p.rest);
      var q := ReadUInt(p.rest);
      LeavesThen(p, q, s);
      if q.Ok? {
        PairLeaves(q.rest);
        LeavesThen(q, ReadPair(q.rest), s);
      }
    }
  }

  lemma TimestampLeaves(s: seq<byte>)
    ensures Leaves(DecodeTimestamp(s), s)
  {
    hide ReadExpected, ReadPair, IsSuffix;
    var p := ReadArrayLength(s);
    ExpectedLeaves(MAJOR_ARRAY, s);
    if p.Ok? {
      PairLeaves(p.rest);
      LeavesThen(p, ReadPair(p.rest), s);
    }
  }

  lemma FieldsLeave(s: seq<byte>)
    ensures Leaves(DecodeFields(s), s)
  {
    hide DecodeStart, DecodeEndpoints, DecodeLife, IsSuffix, Fields;
    var p := DecodeStart(s);
    StartLeaves(s);
    if p.Ok? {
      EndpointsLeave(p.rest);
      var q := DecodeEndpoints(p.rest);
      LeavesThen(p, q, s);
      if q.Ok? {
        LifeLeaves(p.value.size >= 10, q.rest);
        LeavesThen(q, DecodeLife(p.value.size >= 10, q.rest), s);
      }
    }
  }

  lemma CanonicalLeaves(env: Env, s: seq<byte>)
    ensures Leaves(DecodeCanonical(env, s), s)
  {
    hide ReadExpected, DecodeHead, ReadBlock, ReadByteString, IsSuffix, CrcBytes, Consumed, ArrayHead;
    var size := ReadArrayLength(s);
    ExpectedLeaves(MAJOR_ARRAY, s);
    if size.Ok? {
      HeadLeaves(size.rest);
      var head := DecodeHead(size.rest);
      LeavesThen(size, head, s);
      if head.Ok? {
        ReadBlockLeaves(env, head.value.code, head.rest);
        var v := ReadBlock(env, head.value.code, head.rest);
        LeavesThen(head, v, s);
        if v.Ok? {
          ByteStringLeaves(v.rest);
          LeavesThen(v, ReadByteString(v.rest), s);
        }
      }
    }
  }

  /** A block of five elements without a checksum, or of six: after its other bytes stands a byte string with the checksum of
      these, the array head in its shortest form. */
  ghost predicate BlockSealed(env: Env, s: seq<byte>, cb: CanonicalBlock, rest: seq<byte>) {
    exists body: seq<byte>, field: seq<byte> :: BlockSealedBy(env, s, cb, rest, body, field)
  }

  ghost predicate BlockSealedBy(env: Env, s: seq<byte>, cb: CanonicalBlock, rest: seq<byte>, body: seq<byte>, field: seq<byte>) {
    || (ReadArrayLength(s) == Ok(5, body + rest) && cb.crc == [])
    || (&& ReadArrayLength(s) == Ok(6, body + field) && ReadByteString(field) == Ok(cb.crc, rest)
        && Carries(env, cb.crcType, [0x86] + body, cb.crc))
  }

  /** A primary block of eight or ten elements without a checksum, or of nine or eleven, with that of the very bytes. */
  ghost predicate PrimarySealed(env: Env, s: seq<byte>, pb: PrimaryBlock, rest: seq<byte>) {
    exists covered: seq<byte>, field: seq<byte> :: PrimarySealedBy(env, s, pb, rest, covered, field)
  }

  ghost predicate PrimarySealedBy(env: Env, s: seq<byte>, pb: PrimaryBlock, rest: seq<byte>, covered: seq<byte>, field: seq<byte>) {
    var n := ReadArrayLength(s);
    && n.Ok? && s == covered + field
    && (|| ((n.value == 8 || n.value == 10) && field == rest && pb.crc == [])
        || (&& (n.value == 9 || n.value == 11) && ReadByteString(field) == Ok(pb.crc, rest)
            && Carries(env, pb.crcType, covered, pb.crc)))
  }

  lemma ReadCrcCarries(env: Env, crcType: uint64, covered: seq<byte>, s: seq<byte>)
    requires ReadCrc(env, true, crcType, covered, s).Ok?
    ensures var p := ReadCrc(env, true, crcType, covered, s);
            ReadByteString(s) == Ok(p.value, p.rest) && Carries(env, crcType, covered, p.value)
  {
    hide CrcBytes, ReadByteString, Checksum;
    if crcType == 1 || crcType == 2 {
      CrcBytesAre(env, crcType, covered);
    } else {
      assert CrcBytes(env, 0, covered).Some? && |CrcBytes(env, 0, covered).value| == CrcLength(0);
    }
  }

  /** Whatever a canonical block is read from. */
  lemma ReadBlockIsSealed(env: Env, s: seq<byte>)
    requires DecodeCanonical(env, s).Ok?
    ensures BlockSealed(env, s, DecodeCanonical(env, s).value, DecodeCanonical(env, s).rest)
  {
    hide ReadExpected, DecodeHead, ReadBlock, ReadCrc, ReadByteString, Carries, IsSuffix, ArrayHead;
    var p := DecodeCanonical(env, s);
    var size := ReadArrayLength(s);
    var s0 := size.rest;
    var head := DecodeHead(s0);
    var v := ReadBlock(env, head.value.code, head.rest);
    var body := Consumed(s0, v.rest);
    HeadLeaves(s0);
    ReadBlockLeaves(env, head.value.code, head.rest);
    LeavesThen(head, v, s0);
    assert s0 == body + v.rest by { SuffixSplits(v.rest, s0); }
    if size.value == 6 {
      assert ArrayHead(6) == [0x86] by { SixIsShort(); }
      ReadCrcCarries(env, head.value.crcType, [0x86] + body, v.rest);
      assert BlockSealedBy(env, s, p.value, p.rest, body, v.rest);
    } else {
      NoCrc(env, head.value.crcType, ArrayHead(5) + body, v.rest);
      assert BlockSealedBy(env, s, p.value, p.rest, body, v.rest);
    }
  }

  lemma SuffixSplits(rest: seq<byte>, s: seq<byte>)
    requires IsSuffix(rest, s)
    ensures s == Consumed(s, rest) + rest
  {
  }

  lemma SixIsShort()
    ensures ArrayHead(6) == [0x86]
  {
  }

  lemma NoCrc(env: Env, crcType: uint64, covered: seq<byte>, s: seq<byte>)
    ensures ReadCrc(env, false, crcType, covered, s) == Ok([], s)
  {
  }

  lemma FieldsStart(s: seq<byte>)
    requires DecodeFields(s).Ok?
    ensures ReadArrayLength(s).Ok? && ReadArrayLength(s).value == DecodeFields(s).value.0 && 8 <= DecodeFields(s).value.0 <= 11
  {
    hide ReadExpected, ReadPair, DecodeEndpoints, DecodeLife;
  }

  /** Whatever a primary block is read from. */
  lemma ReadPrimaryIsSealed(env: Env, s: seq<byte>)
    requires DecodePrimary(env, s).Ok?
    ensures PrimarySealed(env, s, DecodePrimary(env, s).value, DecodePrimary(env, s).rest)
  {
    hide ReadExpected, DecodeFields, ReadCrc, ReadByteString, Carries, IsSuffix, Consumed;
    var p := DecodePrimary(env, s);
    var fields := DecodeFields(s);
    var covered := Consumed(s, fields.rest);
    FieldsLeave(s);
    FieldsStart(s);
    SuffixSplits(fields.rest, s);
    var size, crcType := fields.value.0, fields.value.1.crcType;
    if size == 9 || size == 11 {
      ReadCrcCarries(env, crcType, covered, fields.rest);
    } else {
      NoCrc(env, crcType, covered, fields.rest);
    }
    assert PrimarySealedBy(env, s, p.value, p.rest, covered, fields.rest);
  }

  /** Sealed blocks one after the other up to a break code, which may cut a block short. */
  ghost predicate BlocksSealed(env: Env, s: seq<byte>, blocks: seq<CanonicalBlock>, rest: seq<byte>)
    decreases |blocks|
  {
    if blocks == [] then IsSuffix([0xFF] + rest, s)
    else exists next: seq<byte> :: BlockSealed(env, s, blocks[0], next) && BlocksSealed(env, next, blocks[1..], rest)
  }

  lemma {:induction false} ReadBlocksAreSealed(env: Env, s: seq<byte>)
    requires DecodeBlocks(env, s).Ok?
    ensures BlocksSealed(env, s, DecodeBlocks(env, s).value, DecodeBlocks(env, s).rest)
    decreases |s|
  {
    hide DecodeCanonical, BlockSealed;
    var p, blocks := DecodeBlocks(env, s), DecodeBlocks(env, s).value;
    match DecodeCanonical(env, s)
    case Break(_) => CanonicalLeaves(env, s);
    case Ok(cb, next) =>
      ReadBlockIsSealed(env, s);
      ReadBlocksAreSealed(env, next);
      assert blocks == [cb] + DecodeBlocks(env, next).value;
      assert blocks[0] == cb && blocks[1..] == DecodeBlocks(env, next).value;
      assert BlockSealed(env, s, blocks[0], next) && BlocksSealed(env, next, blocks[1..], p.rest);
  }

  /** Of every bundle that is received, the primary block and each of the other blocks carry the checksum of their bytes, one
      after the other. */
  lemma ReceivedIsSealed(env: Env, s: seq<byte>)
    requires DecodeBundle(env, s).Ok?
    ensures DecodeAll(env, s).Ok?
    ensures var b := DecodeBundle(env, s).value;
            var blocks := DecodeAll(env, s).value.1;
            && s[0] == 0x9F && Extensions(blocks) == b.extensions && LastPayload(blocks) == Some(b.payload)
            && exists next: seq<byte> ::
                 PrimarySealed(env, s[1..], b.primary, next) && BlocksSealed(env, next, blocks, DecodeBundle(env, s).rest)
  {
    hide DecodePrimary, DecodeBlocks, PrimarySealed, BlocksSealed, CheckBundle, Extensions, LastPayload;
    var p := DecodePrimary(env, s[1..]);
    ReadPrimaryIsSealed(env, s[1..]);
    ReadBlocksAreSealed(env, p.rest);
    assert PrimarySealed(env, s[1..], DecodeBundle(env, s).value.primary, p.rest);
  }

  // ---------------------------------------------------------------- the partial reader

  /** What the partial reader keeps, the full block reader reads just so. */
  lemma WantedIsRead(env: Env, s: seq<byte>, wanted: seq<uint64>, seekable: bool)
    requires DecodeWanted(env, s, wanted, seekable).Read?
    ensures var w := DecodeWanted(env, s, wanted, seekable);
            DecodeCanonical(env, s) == Ok(w.cb, w.rest) && BlockSealed(env, s, w.cb, w.rest)
  {
    hide DecodeSize, DecodeHead, ReadBlock, ReadCrc, SkipBlock, ArrayHead, Consumed, BlockSealed;
    ReadBlockIsSealed(env, s);
  }

  /** Somewhere in these bytes the block was read and carried its checksum. */
  ghost predicate SealedIn(env: Env, s: seq<byte>, cb: CanonicalBlock) {
    exists at: seq<byte>, rest: seq<byte> :: SealedAt(env, s, cb, at, rest)
  }

  ghost predicate SealedAt(env: Env, s: seq<byte>, cb: CanonicalBlock, at: seq<byte>, rest: seq<byte>) {
    IsSuffix(at, s) && BlockSealed(env, at, cb, rest)
  }

  lemma SkipLeaves(n: uint64, seekable: bool, s: seq<byte>)
    ensures Skip(n, seekable, s).Some? ==> IsSuffix(Skip(n, seekable, s).value, s)
  {
  }

  lemma WantedLeaves(env: Env, s: seq<byte>, wanted: seq<uint64>, seekable: bool)
    ensures var w := DecodeWanted(env, s, wanted, seekable); w.Read? || w.Skipped? ==> IsSuffix(w.rest, s)
  {
    hide ReadExpected, DecodeHead, SkipBlock, ReadWanted, IsSuffix;
    var w := DecodeWanted(env, s, wanted, seekable);
    if w.Read? {
      WantedIsRead(env, s, wanted, seekable);
      CanonicalLeaves(env, s);
    } else if w.Skipped? {
      var size := ReadArrayLength(s);
      ExpectedLeaves(MAJOR_ARRAY, s);
      HeadLeaves(size.rest);
      var head := DecodeHead(size.rest);
      LeavesThen(size, head, s);
      SkipBlockLeaves(size.value, head.value.code, seekable, head.rest);
      SuffixTransitive(w.rest, head.rest, s);
    }
  }

  lemma SkipBlockLeaves(size: uint64, code: uint64, seekable: bool, s: seq<byte>)
    ensures SkipBlock(size, code, seekable, s).Skipped? ==> IsSuffix(SkipBlock(size, code, seekable, s).rest, s)
  {
    hide ReadExpected, ReadByteString, Skip, IsSuffix;
    var w := SkipBlock(size, code, seekable, s);
    if w.Skipped? {
      var n := ReadByteStringLen(s);
      ExpectedLeaves(MAJOR_BYTES, s);
      SkipLeaves(n.value, seekable, n.rest);
      var s2 := Skip(n.value, seekable, n.rest).value;
      SuffixTransitive(s2, n.rest, s);
      if size != 5 {
        ByteStringLeaves(s2);
        SuffixTransitive(w.rest, s2, s);
      }
    }
  }

  lemma SealedInMore(env: Env, s: seq<byte>, next: seq<byte>, cb: CanonicalBlock)
    requires IsSuffix(next, s) && SealedIn(env, next, cb)
    ensures SealedIn(env, s, cb)
  {
    hide BlockSealed, IsSuffix;
    var at: seq<byte>, rest: seq<byte> :| SealedAt(env, next, cb, at, rest);
    SuffixTransitive(at, next, s);
    assert SealedAt(env, s, cb, at, rest);
  }

  ghost predicate AllSealedIn(env: Env, s: seq<byte>, blocks: seq<CanonicalBlock>) {
    forall cb :: cb in blocks ==> SealedIn(env, s, cb)
  }

  lemma AllSealedInMore(env: Env, s: seq<byte>, next: seq<byte>, blocks: seq<CanonicalBlock>)
    requires IsSuffix(next, s) && AllSealedIn(env, next, blocks)
    ensures AllSealedIn(env, s, blocks)
  {
    hide SealedIn, IsSuffix;
    forall cb | cb in blocks ensures SealedIn(env, s, cb) {
      SealedInMore(env, s, next, cb);
    }
  }

  lemma SealedPrepend(env: Env, s: seq<byte>, cb: CanonicalBlock, blocks: seq<CanonicalBlock>)
    requires SealedIn(env, s, cb) && AllSealedIn(env, s, blocks)
    ensures AllSealedIn(env, s, [cb] + blocks)
  {
    hide SealedIn;
  }

  lemma NoneSealed(env: Env, s: seq<byte>)
    ensures AllSealedIn(env, s, [])
  {
  }

  lemma {:induction false} PartialBlocksAreSealed(env: Env, s: seq<byte>, wanted: seq<uint64>, seekable: bool)
    requires PartialBlocks(env, s, wanted, seekable).Some?
    ensures AllSealedIn(env, s, PartialBlocks(env, s, wanted, seekable).value)
    decreases |s|
  {
    hide DecodeWanted, SealedIn, IsSuffix, Remove, AllSealedIn;
    WantedLeaves(env, s, wanted, seekable);
    NoneSealed(env, s);
    match DecodeWanted(env, s, wanted, seekable)
    case Stop =>
    case Skipped(code, next) =>
      if code != TYPE_PAYLOAD {
        PartialBlocksAreSealed(env, next, wanted, seekable);
        AllSealedInMore(env, s, next, PartialBlocks(env, next, wanted, seekable).value);
      }
    case Read(first, next) =>
      if first.TypeCode() != TYPE_PAYLOAD {
        FirstIsSealed(env, s, wanted, seekable);
        var left := Remove(wanted, first.TypeCode());
        if left == [] {
          SealedPrepend(env, s, first, []);
          assert [first] + [] == [first];
        } else {
          var others := PartialBlocks(env, next, left, seekable).value;
          PartialBlocksAreSealed(env, next, left, seekable);
          AllSealedInMore(env, s, next, others);
          SealedPrepend(env, s, first, others);
        }
      }
  }

  lemma FirstIsSealed(env: Env, s: seq<byte>, wanted: seq<uint64>, seekable: bool)
    requires DecodeWanted(env, s, wanted, seekable).Read?
    ensures SealedIn(env, s, DecodeWanted(env, s, wanted, seekable).cb)
  {
    hide DecodeWanted, BlockSealed;
    WantedIsRead(env, s, wanted, seekable);
    var w := DecodeWanted(env, s, wanted, seekable);
    assert SealedAt(env, s, w.cb, s, w.rest);
  }

  /** Also of a bundle that is read in part only: its primary block and every block that is kept carry their checksums. */
  lemma PartialIsSealed(env: Env, s: seq<byte>, wanted: seq<uint64>, seekable: bool)
    requires ParsePartial(env, s, wanted, seekable).Some?
    ensures var pb := ParsePartial(env, s, wanted, seekable).value;
            && s != [] && s[0] == 0x9F
            && exists next: seq<byte> :: PrimarySealed(env, s[1..], pb.primary, next) && AllSealedIn(env, next, pb.extensions)
  {
    hide DecodePrimary, PartialBlocks, PrimarySealed, AllSealedIn;
    var p := DecodePrimary(env, s[1..]);
    ReadPrimaryIsSealed(env, s[1..]);
    PartialBlocksAreSealed(env, p.rest, wanted, seekable);
    assert PrimarySealed(env, s[1..], ParsePartial(env, s, wanted, seekable).value.primary, p.rest);
  }
}
