/** No fragment is larger than the MTU: the overhead estimated before a fragment is built is never too small. */
module MtuBound {
  import opened Bytes
  import opened Cbor
  import opened Endpoint
  import opened Blocks
  import opened BlockCodec
  import opened PrimaryCodec
  import opened BundleCodec
  import opened Bundles
  import opened Numbering
  import opened Fragmentation

  // ---------------------------------------------------------------- lengths of encodings

  function CrcFieldLength(crcType: uint64): nat {
    if crcType == CRC_NO then 0 else if crcType == CRC_16 then 3 else 5
  }

  /** Everything but the block number. */
  function RestLength(cb: CanonicalBlock): nat
    requires MarshalValue(cb.value).Some?
  {
    var data := MarshalValue(cb.value).value;
    1 + HeadLength(cb.TypeCode()) + HeadLength(cb.flags) + HeadLength(cb.crcType)
    + HeadLength(Length(data)) + |data| + CrcFieldLength(cb.crcType)
  }

  lemma CrcFieldHasLength(env: Env, crcType: uint64, covered: seq<byte>)
    requires crcType <= CRC_32
    ensures |CrcField(env, crcType, covered)| == CrcFieldLength(crcType)
  {
    hide CrcBytes;
  }

  lemma CanonicalHasLength(env: Env, cb: CanonicalBlock)
    requires EncodeCanonical(env, cb).Some?
    ensures |EncodeCanonical(env, cb).value| == HeadLength(cb.number) + RestLength(cb)
  {
    hide CrcField, MarshalValue, Head;
    CrcFieldHasLength(env, cb.crcType, CanonicalCovered(cb).value);
  }

  /** The longest checksum type makes the longest block. */
  lemma EstimateIsLongest(cb: CanonicalBlock, number: uint64)
    requires MarshalValue(cb.value).Some? && cb.crcType <= CRC_32
    ensures RestLength(cb.(number := number)) <= RestLength(cb.(crcType := CRC_32))
  {
    hide MarshalValue, Length;
  }

  function BlocksLength(env: Env, blocks: seq<CanonicalBlock>): nat
    requires forall cb :: cb in blocks ==> EncodeCanonical(env, cb).Some?
  {
    if blocks == [] then 0
    else
      assert blocks[|blocks| - 1] in blocks;
      BlocksLength(env, blocks[..|blocks| - 1]) + |EncodeCanonical(env, blocks[|blocks| - 1]).value|
  }

  lemma {:induction false} BlocksHaveLength(env: Env, blocks: seq<CanonicalBlock>)
    requires EncodeBlocks(env, blocks).Some?
    ensures |EncodeBlocks(env, blocks).value| == BlocksLength(env, blocks)
  {
    hide EncodeCanonical;
    if blocks != [] {
      var n := |blocks| - 1;
      assert forall cb :: cb in blocks[..n] ==> cb in blocks;
      assert blocks[n] in blocks;
      BlocksHaveLength(env, blocks[..n]);
      EncodeBlocksAppend(env, blocks[..n], blocks[n]);
      assert blocks == blocks[..n] + [blocks[n]];
    }
  }

  lemma BundleHasLength(env: Env, b: Bundle)
    requires EncodeBundle(env, b).Some?
    ensures EncodeCanonical(env, b.payload).Some? && EncodeBlocks(env, b.extensions).Some?
    ensures |EncodeBundle(env, b).value|
         == 2 + |EncodePrimary(env, b.primary).value| + BlocksLength(env, b.extensions) + |EncodeCanonical(env, b.payload).value|
  {
    hide EncodePrimary, EncodeCanonical;
    var blocks := b.extensions + [b.payload];
    assert b.payload in blocks && forall cb :: cb in b.extensions ==> cb in blocks;
    BlocksHaveLength(env, blocks);
    assert blocks[..|b.extensions|] == b.extensions && blocks[|b.extensions|] == b.payload;
  }

  // ---------------------------------------------------------------- renumbering never lengthens

  function HeadSum(ns: seq<uint64>): nat {
    if ns == [] then 0 else HeadSum(ns[..|ns| - 1]) + HeadLength(ns[|ns| - 1])
  }

  function FromTwo(n: nat): (ns: seq<uint64>)
    requires n <= MAX_BLOCKS
    ensures |ns| == n && forall i :: 0 <= i < n ==> ns[i] == 2 + i
  {
    seq(n, i requires 0 <= i < n => 2 + i)
  }

  lemma {:induction false} HeadSumRemove(ns: seq<uint64>, m: nat)
    requires m < |ns|
    ensures HeadSum(ns) == HeadLength(ns[m]) + HeadSum(ns[..m] + ns[m + 1..])
  {
    var n := |ns| - 1;
    var left := ns[..m] + ns[m + 1..];
    if m < n {
      HeadSumRemove(ns[..n], m);
      assert left[..n - 1] == ns[..n][..m] + ns[..n][m + 1..] && left[n - 1] == ns[n];
    } else {
      assert left == ns[..n];
    }
  }

  ghost predicate DistinctFromTwo(ns: seq<uint64>) {
    && (forall i :: 0 <= i < |ns| ==> ns[i] >= 2)
    && forall i, j :: 0 <= i < j < |ns| ==> ns[i] != ns[j]
  }

  function Elements(ns: seq<uint64>): set<int> {
    set i | 0 <= i < |ns| :: ns[i]
  }

  lemma {:induction false} DistinctSize(ns: seq<uint64>)
    requires DistinctFromTwo(ns)
    ensures |Elements(ns)| == |ns|
  {
    if ns != [] {
      var n := |ns| - 1;
      DistinctSize(ns[..n]);
      assert Elements(ns) == Elements(ns[..n]) + {ns[n]};
    }
  }

  /** Among n distinct numbers from 2 on, one is at least n + 1. */
  lemma LargeNumber(ns: seq<uint64>) returns (m: nat)
    requires DistinctFromTwo(ns) && ns != []
    ensures m < |ns| && ns[m] >= |ns| + 1
  {
    if forall i :: 0 <= i < |ns| ==> ns[i] <= |ns| {
      DistinctSize(ns);
      SubsetSize(Elements(ns), Interval(2, |ns| + 1));
      assert false;
    }
    m :| 0 <= m < |ns| && ns[m] > |ns|;
  }

  /** The numbers 2, 3, 4, … have the shortest heads in total. */
  lemma {:induction false} SmallestNumbersAreShortest(ns: seq<uint64>)
    requires DistinctFromTwo(ns) && |ns| <= MAX_BLOCKS
    ensures HeadSum(FromTwo(|ns|)) <= HeadSum(ns)
    decreases |ns|
  {
    hide HeadLength;
    if ns != [] {
      var n := |ns| - 1;
      var m := LargeNumber(ns);
      var left := ns[..m] + ns[m + 1..];
      SmallestNumbersAreShortest(left);
      HeadSumRemove(ns, m);
      assert FromTwo(|ns|)[..n] == FromTwo(n);
      HeadLengthMonotone(n + 2, ns[m]);
    }
  }

  // ---------------------------------------------------------------- the estimate

  function NumbersOf(blocks: seq<CanonicalBlock>): (ns: seq<uint64>)
    ensures |ns| == |blocks| && forall i :: 0 <= i < |ns| ==> ns[i] == blocks[i].number
  {
    seq(|blocks|, i requires 0 <= i < |blocks| => blocks[i].number)
  }

  ghost predicate Plain(blocks: seq<CanonicalBlock>) {
    forall cb :: cb in blocks ==> cb.TypeCode() != TYPE_PAYLOAD && cb.number >= 2 && MarshalValue(cb.value).Some?
  }

  /** Estimated lengths without the block numbers. */
  function EstimatedRest(blocks: seq<CanonicalBlock>): nat
    requires Plain(blocks)
  {
    if blocks == [] then 0
    else
      var n := |blocks| - 1;
      assert blocks[n] in blocks;
      EstimatedRest(blocks[..n]) + RestLength(blocks[n].(crcType := CRC_32))
  }

  lemma {:induction false} OverheadSums(env: Env, blocks: seq<CanonicalBlock>, mtu: int)
    requires Plain(blocks) && -INT_LIMIT <= mtu < INT_LIMIT && ExtensionsOverhead(env, blocks, mtu).Some?
    ensures Plain(Kept(blocks, false))
    ensures var o := ExtensionsOverhead(env, blocks, mtu).value;
            && o.first == HeadSum(NumbersOf(blocks)) + EstimatedRest(blocks)
            && o.others == HeadSum(NumbersOf(Kept(blocks, false))) + EstimatedRest(Kept(blocks, false))
  {
    hide EncodeCanonical, RestLength, HeadLength, MarshalValue;
    if blocks != [] {
      var n := |blocks| - 1;
      var cb := blocks[n];
      assert cb in blocks && forall x :: x in blocks[..n] ==> x in blocks;
      OverheadSums(env, blocks[..n], mtu);
      CanonicalHasLength(env, Estimated(cb));
      assert NumbersOf(blocks)[..n] == NumbersOf(blocks[..n]);
      var kept := Kept(blocks, false);
      if Has(cb.flags, REPLICATE_BLOCK) {
        assert kept[..|kept| - 1] == Kept(blocks[..n], false) && kept[|kept| - 1] == cb;
        assert NumbersOf(kept)[..|kept| - 1] == NumbersOf(Kept(blocks[..n], false));
      } else {
        assert kept == Kept(blocks[..n], false);
      }
    }
  }

  /** Any numbering costs at most its heads plus the estimate of the rest. */
  lemma {:induction false} AtMostEstimate(env: Env, blocks: seq<CanonicalBlock>, numbered: seq<CanonicalBlock>)
    requires Plain(blocks) && |numbered| == |blocks|
    requires forall i :: 0 <= i < |blocks| ==> numbered[i] == blocks[i].(number := numbered[i].number)
    requires forall cb :: cb in numbered ==> EncodeCanonical(env, cb).Some?
    ensures BlocksLength(env, numbered) <= HeadSum(NumbersOf(numbered)) + EstimatedRest(blocks)
  {
    hide EncodeCanonical, RestLength, HeadLength, MarshalValue;
    if blocks != [] {
      var n := |blocks| - 1;
      assert blocks[n] in blocks && numbered[n] in numbered;
      assert forall x :: x in numbered[..n] ==> x in numbered;
      AtMostEstimate(env, blocks[..n], numbered[..n]);
      CanonicalHasLength(env, numbered[n]);
      EstimateIsLongest(blocks[n], numbered[n].number);
      assert NumbersOf(numbered)[..n] == NumbersOf(numbered[..n]);
    }
  }

  lemma {:induction false} KeptDistinct(blocks: seq<CanonicalBlock>, first: bool)
    requires DistinctNumbers(blocks)
    ensures DistinctNumbers(Kept(blocks, first))
  {
    if blocks != [] {
      var n := |blocks| - 1;
      KeptDistinct(blocks[..n], first);
      var before := Kept(blocks[..n], first);
      forall i | 0 <= i < |before| ensures before[i].number != blocks[n].number {
        assert before[i] in blocks[..n];
      }
    }
  }

  lemma RenumberingShortens(blocks: seq<CanonicalBlock>)
    requires Plain(blocks) && DistinctNumbers(blocks) && |blocks| <= MAX_BLOCKS
    ensures HeadSum(NumbersOf(Renumbered(blocks))) <= HeadSum(NumbersOf(blocks))
  {
    hide HeadSum, MarshalValue;
    assert NumbersOf(Renumbered(blocks)) == FromTwo(|blocks|);
    forall i | 0 <= i < |blocks| ensures NumbersOf(blocks)[i] >= 2 {
      assert blocks[i] in blocks;
    }
    SmallestNumbersAreShortest(NumbersOf(blocks));
  }

  /** The renumbered blocks of a fragment fit their estimate. */
  lemma ExtensionsFit(env: Env, blocks: seq<CanonicalBlock>, mtu: int, first: bool)
    requires Plain(blocks) && DistinctNumbers(blocks) && |blocks| <= MAX_BLOCKS
    requires -INT_LIMIT <= mtu < INT_LIMIT && ExtensionsOverhead(env, blocks, mtu).Some?
    requires EncodeBlocks(env, AddAll(Kept(blocks, first))).Some?
    ensures var o := ExtensionsOverhead(env, blocks, mtu).value;
            BlocksLength(env, AddAll(Kept(blocks, first))) <= if first then o.first else o.others
  {
    hide EncodeCanonical, EstimatedRest, HeadSum, ExtensionsOverhead, AddAll;
    hide Kept, DistinctNumbers, NumbersOf, MarshalValue, BlocksLength;
    var kept := Kept(blocks, first);
    OverheadSums(env, blocks, mtu);
    KeptDistinct(blocks, first);
    AddAllRenumbers(kept);
    AtMostEstimate(env, kept, Renumbered(kept));
    RenumberingShortens(kept);
  }

  /** Nor do the original blocks exceed the estimate for the first fragment. */
  lemma OriginalExtensionsFit(env: Env, blocks: seq<CanonicalBlock>, mtu: int)
    requires Plain(blocks) && -INT_LIMIT <= mtu < INT_LIMIT && ExtensionsOverhead(env, blocks, mtu).Some?
    requires EncodeBlocks(env, blocks).Some?
    ensures BlocksLength(env, blocks) <= ExtensionsOverhead(env, blocks, mtu).value.first
  {
    hide EncodeCanonical, EstimatedRest, HeadSum, ExtensionsOverhead;
    OverheadSums(env, blocks, mtu);
    AtMostEstimate(env, blocks, blocks);
  }

  /** The payload block of up to `room` bytes fits. */
  lemma PayloadFits(env: Env, b: Bundle, mtu: int, payload: CanonicalBlock)
    requires 0 <= mtu < INT_LIMIT
    requires EncodeCanonical(env, PayloadStub(b)).Some? && EncodeCanonical(env, payload).Some?
    requires payload.value.PayloadBlock? && payload.number == 1 && payload.flags == b.payload.flags
    requires |payload.value.data| <= mtu
    ensures |EncodeCanonical(env, payload).value|
         <= |EncodeCanonical(env, PayloadStub(b)).value| + LengthGrowth(mtu) + |payload.value.data|
  {
    hide EncodeCanonical, HeadLength;
    CanonicalHasLength(env, payload);
    CanonicalHasLength(env, PayloadStub(b));
    HeadLengthMonotone(|payload.value.data|, mtu);
    assert HeadLength(0) == 1 && HeadLength(payload.crcType) == 1 by { SmallHeads(payload.crcType); }
  }

  lemma SmallHeads(n: uint64)
    requires n <= CRC_32
    ensures HeadLength(0) == 1 && HeadLength(n) == 1 && HeadLength(CRC_32) == 1
  {
  }

  // ---------------------------------------------------------------- primary blocks

  lemma ChecksumIsNotEncoded(env: Env, pb: PrimaryBlock, crc: seq<byte>)
    ensures EncodePrimary(env, pb.(crc := crc)) == EncodePrimary(env, pb)
  {
    hide CrcField, EncodeEndpoint, UInt, ArrayHead, EncodeTimestamp;
    assert PrimaryCovered(pb.(crc := crc)) == PrimaryCovered(pb);
  }

  lemma PrimaryHasLength(env: Env, pb: PrimaryBlock)
    requires EncodePrimary(env, pb).Some?
    ensures Endpoints(pb).Some?
    ensures |EncodePrimary(env, pb).value|
         == 2 + HeadLength(pb.flags) + HeadLength(pb.crcType) + |Endpoints(pb).value| + |Times(pb)|
            + (if pb.HasFragmentation() then HeadLength(pb.fragmentOffset) + HeadLength(pb.totalDataLength) else 0)
            + CrcFieldLength(pb.crcType)
  {
    hide CrcField, Endpoints, Times, BigEndian;
    CrcFieldHasLength(env, pb.crcType, PrimaryCovered(pb).value);
  }

  /** Marking a primary block as a fragment never makes it shorter. */
  lemma FragmentPrimaryIsLonger(env: Env, pb: PrimaryBlock, offset: uint64, total: uint64)
    requires EncodePrimary(env, pb).Some? && !pb.HasFragmentation()
    ensures EncodePrimary(env, FragmentPrimary(pb, offset, total)).Some?
    ensures |EncodePrimary(env, pb).value| <= |EncodePrimary(env, FragmentPrimary(pb, offset, total)).value|
  {
    hide EncodePrimary, Endpoints, EncodeEndpoint, HeadLength, UInt, EncodeTimestamp;
    var f := FragmentPrimary(pb, offset, total);
    SameEndpoints(env, pb, f);
    PrimaryHasLength(env, pb);
    PrimaryHasLength(env, f);
    HeadLengthMonotone(pb.flags, f.flags);
  }

  lemma SameEndpoints(env: Env, pb: PrimaryBlock, f: PrimaryBlock)
    requires f.destination == pb.destination && f.source == pb.source && f.reportTo == pb.reportTo && f.crcType == pb.crcType
    ensures Endpoints(f) == Endpoints(pb)
    ensures EncodePrimary(env, pb).Some? <==> EncodePrimary(env, f).Some?
  {
    hide CrcField, EncodeEndpoint, Start, Times, FragmentFields;
  }

  // ---------------------------------------------------------------- the bound

  ghost predicate Splittable(env: Env, b: Bundle) {
    && Fragmentable(b) && CheckBundle(env, b) && !b.primary.HasFragmentation()
    && forall cb :: cb in b.extensions ==> cb.number >= 2
  }

  lemma {:induction false} EstimatedExtensionsArePlain(env: Env, blocks: seq<CanonicalBlock>, mtu: int)
    requires -INT_LIMIT <= mtu < INT_LIMIT && ExtensionsOverhead(env, blocks, mtu).Some?
    requires forall cb :: cb in blocks ==> cb.CheckValid() && cb.number >= 2
    ensures Plain(blocks)
  {
    hide EncodeCanonical, MarshalValue;
    if blocks != [] {
      var n := |blocks| - 1;
      assert blocks[n] in blocks && forall x :: x in blocks[..n] ==> x in blocks;
      EstimatedExtensionsArePlain(env, blocks[..n], mtu);
      assert blocks == blocks[..n] + [blocks[n]];
    }
  }

  lemma SplittablePlain(env: Env, b: Bundle, mtu: int)
    requires Splittable(env, b) && -INT_LIMIT <= mtu < INT_LIMIT && BlocksOverhead(env, b, mtu).Some?
    ensures Plain(b.extensions) && DistinctNumbers(b.extensions)
  {
    hide TimeValid, ContextValid, EncodeCanonical;
    EstimatedExtensionsArePlain(env, b.extensions, mtu);
  }

  lemma FragmentFits(env: Env, b: Bundle, mtu: int, i: nat)
    requires Splittable(env, b) && -INT_LIMIT <= mtu < INT_LIMIT && BlocksOverhead(env, b, mtu).Some?
    requires i < |b.payload.value.data| && FragmentAt(env, b, mtu, BlocksOverhead(env, b, mtu).value, i).Some?
    ensures var f := FragmentAt(env, b, mtu, BlocksOverhead(env, b, mtu).value, i).value.fragment;
            EncodeBundle(env, f).Some? ==> |EncodeBundle(env, f).value| <= mtu
  {
    hide EncodePrimary, EncodeCanonical, EncodeBundle, ExtensionsOverhead, CheckBundle;
    hide AddAll, Kept, LengthGrowth, BlocksLength, EncodeBlocks;
    var overhead := BlocksOverhead(env, b, mtu).value;
    var f := FragmentAt(env, b, mtu, overhead, i).value.fragment;
    if EncodeBundle(env, f).Some? {
      SplittablePlain(env, b, mtu);
      BundleHasLength(env, f);
      ChecksumIsNotEncoded(env, FragmentPrimary(b.primary, i, |b.payload.value.data|), f.primary.crc);
      ExtensionsFit(env, b.extensions, mtu, i == 0);
      PayloadFits(env, b, mtu, f.payload);
    }
  }

  ghost predicate AllFit(env: Env, bs: seq<Bundle>, mtu: int) {
    forall f :: f in bs && EncodeBundle(env, f).Some? ==> |EncodeBundle(env, f).value| <= mtu
  }

  lemma {:induction false} AllFragmentsFit(env: Env, b: Bundle, mtu: int, i: nat)
    requires Splittable(env, b) && -INT_LIMIT <= mtu < INT_LIMIT && BlocksOverhead(env, b, mtu).Some?
    requires FragmentsFrom(env, b, mtu, BlocksOverhead(env, b, mtu).value, i).Some?
    ensures AllFit(env, FragmentsFrom(env, b, mtu, BlocksOverhead(env, b, mtu).value, i).value, mtu)
    decreases |b.payload.value.data| - i
  {
    hide FragmentAt, EncodeBundle, BlocksOverhead, Splittable;
    assert Fragmentable(b) by { IsFragmentable(env, b); }
    if i < |b.payload.value.data| {
      var overhead := BlocksOverhead(env, b, mtu).value;
      var piece := FragmentAt(env, b, mtu, overhead, i).value;
      FragmentFits(env, b, mtu, i);
      AllFragmentsFit(env, b, mtu, i + piece.room);
    }
  }

  lemma IsFragmentable(env: Env, b: Bundle)
    requires Splittable(env, b)
    ensures Fragmentable(b)
  {
  }

  /** A bundle that needs one fragment only is returned as it is, and fits too. */
  lemma OriginalFits(env: Env, b: Bundle, mtu: int)
    requires Splittable(env, b) && -INT_LIMIT <= mtu < INT_LIMIT && BlocksOverhead(env, b, mtu).Some?
    requires b.payload.value.data != []
    requires var p := FragmentAt(env, b, mtu, BlocksOverhead(env, b, mtu).value, 0);
             p.Some? && p.value.room >= |b.payload.value.data|
    ensures EncodeBundle(env, b).Some? ==> |EncodeBundle(env, b).value| <= mtu
  {
    hide EncodePrimary, EncodeCanonical, EncodeBundle, ExtensionsOverhead, TimeValid;
    hide ExtensionsValid, AddAll, Kept, LengthGrowth, BlocksLength, EncodeBlocks;
    hide FragmentPayload;
    var overhead := BlocksOverhead(env, b, mtu).value;
    if EncodeBundle(env, b).Some? {
      SplittablePlain(env, b, mtu);
      BundleHasLength(env, b);
      FragmentPrimaryIsLonger(env, b.primary, 0, |b.payload.value.data|);
      OriginalExtensionsFit(env, b.extensions, mtu);
      assert b.payload.number == 1;
      PayloadFits(env, b, mtu, b.payload);
    }
  }

  // ---------------------------------------------------------------- which fragments can be written

  lemma BlockEncodesExactly(env: Env, cb: CanonicalBlock)
    ensures EncodeCanonical(env, cb).Some? <==> MarshalValue(cb.value).Some? && cb.crcType <= CRC_32
  {
    hide MarshalValue, CrcField, CanonicalHead;
  }

  ghost predicate KnownChecksums(blocks: seq<CanonicalBlock>) {
    forall cb :: cb in blocks ==> cb.crcType <= CRC_32
  }

  lemma BundleEncodesExactly(env: Env, b: Bundle)
    ensures EncodeBundle(env, b).Some? <==> (
              && EncodePrimary(env, b.primary).Some? && EncodeCanonical(env, b.payload).Some?
              && forall cb :: cb in b.extensions ==> EncodeCanonical(env, cb).Some?)
  {
    hide EncodePrimary, EncodeCanonical;
    var blocks := b.extensions + [b.payload];
    assert b.payload in blocks && forall cb :: cb in b.extensions ==> cb in blocks;
  }

  /** Renumbered blocks can be written exactly if their checksum types are known. */
  lemma RenumberedEncodes(env: Env, blocks: seq<CanonicalBlock>)
    requires Plain(blocks) && |blocks| <= MAX_BLOCKS
    ensures (forall cb :: cb in Renumbered(blocks) ==> EncodeCanonical(env, cb).Some?) <==> KnownChecksums(blocks)
  {
    hide EncodeCanonical, MarshalValue;
    var r := Renumbered(blocks);
    forall i | 0 <= i < |blocks|
      ensures r[i] in r && blocks[i] in blocks && (EncodeCanonical(env, r[i]).Some? <==> blocks[i].crcType <= CRC_32)
    {
      assert r[i] in r && blocks[i] in blocks;
      BlockEncodesExactly(env, r[i]);
    }
  }

  lemma KnownKept(blocks: seq<CanonicalBlock>, first: bool)
    requires KnownChecksums(blocks)
    ensures KnownChecksums(Kept(blocks, first))
  {
  }

  lemma KeptIsPlain(blocks: seq<CanonicalBlock>, first: bool)
    requires Plain(blocks)
    ensures Plain(Kept(blocks, first))
  {
    hide MarshalValue;
  }

  /** A fragment can be written exactly if the payload block and the extension blocks it keeps have known checksum types. */
  lemma FragmentEncodesExactly(env: Env, b: Bundle, mtu: int, i: nat)
    requires Splittable(env, b) && -INT_LIMIT <= mtu < INT_LIMIT && BlocksOverhead(env, b, mtu).Some?
    requires i < |b.payload.value.data| && FragmentAt(env, b, mtu, BlocksOverhead(env, b, mtu).value, i).Some?
    ensures var f := FragmentAt(env, b, mtu, BlocksOverhead(env, b, mtu).value, i).value.fragment;
            EncodeBundle(env, f).Some? <==> KnownChecksums(Kept(b.extensions, i == 0)) && b.payload.crcType <= CRC_32
  {
    hide EncodePrimary, EncodeCanonical, EncodeBundle, BlocksOverhead, CheckBundle, AddAll, Kept, KnownChecksums, Plain, MarshalValue;
    var f := FragmentAt(env, b, mtu, BlocksOverhead(env, b, mtu).value, i).value.fragment;
    var kept := Kept(b.extensions, i == 0);
    SplittablePlain(env, b, mtu);
    KeptIsPlain(b.extensions, i == 0);
    assert forall cb :: cb in kept ==> cb.TypeCode() != TYPE_PAYLOAD by { PlainTypes(kept); }
    AddAllRenumbers(kept);
    RenumberedEncodes(env, kept);
    ChecksumIsNotEncoded(env, FragmentPrimary(b.primary, i, |b.payload.value.data|), f.primary.crc);
    BundleEncodesExactly(env, f);
    BlockEncodesExactly(env, f.payload);
    assert MarshalValue(f.payload.value).Some? by { PayloadMarshals(f.payload.value); }
  }

  lemma PlainTypes(blocks: seq<CanonicalBlock>)
    requires Plain(blocks)
    ensures forall cb :: cb in blocks ==> cb.TypeCode() != TYPE_PAYLOAD
  {
    hide MarshalValue;
  }

  lemma PayloadMarshals(v: ExtensionBlock)
    requires v.PayloadBlock?
    ensures MarshalValue(v).Some?
  {
  }

  lemma OriginalEncodesExactly(env: Env, b: Bundle, mtu: int)
    requires Splittable(env, b) && -INT_LIMIT <= mtu < INT_LIMIT && BlocksOverhead(env, b, mtu).Some?
    requires EncodePrimary(env, b.primary).Some?
    ensures EncodeBundle(env, b).Some? <==> KnownChecksums(b.extensions) && b.payload.crcType <= CRC_32
  {
    hide EncodePrimary, EncodeCanonical, EncodeBundle, BlocksOverhead, CheckBundle, MarshalValue;
    SplittablePlain(env, b, mtu);
    BundleEncodesExactly(env, b);
    forall cb | cb in b.extensions ensures EncodeCanonical(env, cb).Some? <==> cb.crcType <= CRC_32 {
      BlockEncodesExactly(env, cb);
    }
    BlockEncodesExactly(env, b.payload);
    PayloadMarshals(b.payload.value);
  }

  /** Every bundle can be written and takes at most mtu bytes. */
  ghost predicate AllWithin(env: Env, bs: seq<Bundle>, mtu: int) {
    forall f :: f in bs ==> EncodeBundle(env, f).Some? && |EncodeBundle(env, f).value| <= mtu
  }

  ghost predicate AllEncode(env: Env, bs: seq<Bundle>) {
    forall f :: f in bs ==> EncodeBundle(env, f).Some?
  }

  lemma KnownFragmentEncodes(env: Env, b: Bundle, mtu: int, i: nat)
    requires Splittable(env, b) && -INT_LIMIT <= mtu < INT_LIMIT && BlocksOverhead(env, b, mtu).Some?
    requires i < |b.payload.value.data| && FragmentAt(env, b, mtu, BlocksOverhead(env, b, mtu).value, i).Some?
    requires KnownChecksums(b.extensions) && b.payload.crcType <= CRC_32
    ensures EncodeBundle(env, FragmentAt(env, b, mtu, BlocksOverhead(env, b, mtu).value, i).value.fragment).Some?
  {
    hide FragmentAt, EncodeBundle, BlocksOverhead, Splittable, KnownChecksums, Kept, CheckBundle;
    KnownKept(b.extensions, i == 0);
    FragmentEncodesExactly(env, b, mtu, i);
  }

  ghost predicate EachEncodes(env: Env, b: Bundle, mtu: int, overhead: Overhead)
    requires Fragmentable(b)
  {
    forall j: nat :: j < |b.payload.value.data| && FragmentAt(env, b, mtu, overhead, j).Some?
      ==> EncodeBundle(env, FragmentAt(env, b, mtu, overhead, j).value.fragment).Some?
  }

  lemma EncodesAt(env: Env, b: Bundle, mtu: int, overhead: Overhead, i: nat)
    requires Fragmentable(b) && EachEncodes(env, b, mtu, overhead)
    requires i < |b.payload.value.data| && FragmentAt(env, b, mtu, overhead, i).Some?
    ensures EncodeBundle(env, FragmentAt(env, b, mtu, overhead, i).value.fragment).Some?
  {
    hide FragmentAt, EncodeBundle;
  }

  lemma FragmentsUnfold(env: Env, b: Bundle, mtu: int, overhead: Overhead, i: nat)
    requires Fragmentable(b) && FragmentsFrom(env, b, mtu, overhead, i).Some?
    ensures var bs := FragmentsFrom(env, b, mtu, overhead, i).value;
            if i >= |b.payload.value.data| then bs == []
            else
              && FragmentAt(env, b, mtu, overhead, i).Some?
              && var piece := FragmentAt(env, b, mtu, overhead, i).value;
              && FragmentsFrom(env, b, mtu, overhead, i + piece.room).Some?
              && bs == [piece.fragment] + FragmentsFrom(env, b, mtu, overhead, i + piece.room).value
  {
    hide FragmentAt;
  }

  lemma {:induction false} FragmentsEncode(env: Env, b: Bundle, mtu: int, overhead: Overhead, i: nat)
    requires Fragmentable(b) && FragmentsFrom(env, b, mtu, overhead, i).Some?
    requires EachEncodes(env, b, mtu, overhead)
    ensures AllEncode(env, FragmentsFrom(env, b, mtu, overhead, i).value)
    decreases |b.payload.value.data| - i
  {
    hide FragmentAt, EncodeBundle, AllEncode, FragmentsFrom, EachEncodes;
    FragmentsUnfold(env, b, mtu, overhead, i);
    if i < |b.payload.value.data| {
      var piece := FragmentAt(env, b, mtu, overhead, i).value;
      var others := FragmentsFrom(env, b, mtu, overhead, i + piece.room).value;
      FragmentsEncode(env, b, mtu, overhead, i + piece.room);
      EncodesAt(env, b, mtu, overhead, i);
      AllEncodePrepend(env, piece.fragment, others);
    } else {
      AllEncodeEmpty(env);
    }
  }

  lemma AllEncodePrepend(env: Env, f: Bundle, bs: seq<Bundle>)
    requires EncodeBundle(env, f).Some? && AllEncode(env, bs)
    ensures AllEncode(env, [f] + bs)
  {
    hide EncodeBundle;
  }

  lemma AllEncodeEmpty(env: Env)
    ensures AllEncode(env, [])
  {
  }

  lemma PrimaryEncodes(env: Env, b: Bundle, mtu: int, overhead: Overhead)
    requires Fragmentable(b) && b.payload.value.data != [] && FragmentAt(env, b, mtu, overhead, 0).Some?
    ensures EncodePrimary(env, b.primary).Some?
  {
    hide EncodePrimary, CheckBundle, AddAll, Kept;
    SameEndpoints(env, b.primary, FragmentPrimary(b.primary, 0, |b.payload.value.data|));
  }

  /** All that Fragment returns can be written exactly if the checksum types of all blocks are known: the first fragment, and
      the untouched bundle, have all of them. An empty payload gives no fragment. */
  lemma FragmentsEncodeExactly(env: Env, b: Bundle, mtu: int)
    requires Splittable(env, b) && -INT_LIMIT <= mtu < INT_LIMIT && Fragments(env, b, mtu).Some?
    ensures AllEncode(env, Fragments(env, b, mtu).value) <==> (
              b.payload.value.data == [] || (KnownChecksums(b.extensions) && b.payload.crcType <= CRC_32))
  {
    hide FragmentAt, EncodeBundle, BlocksOverhead, Splittable, KnownChecksums;
    IsFragmentable(env, b);
    var overhead := BlocksOverhead(env, b, mtu).value;
    if b.payload.value.data != [] {
      var bs := FragmentsFrom(env, b, mtu, overhead, 0).value;
      var piece := FragmentAt(env, b, mtu, overhead, 0).value;
      assert bs[0] == piece.fragment && bs[0] in bs;
      assert Kept(b.extensions, true) == b.extensions;
      FragmentEncodesExactly(env, b, mtu, 0);
      PrimaryEncodes(env, b, mtu, overhead);
      OriginalEncodesExactly(env, b, mtu);
      if KnownChecksums(b.extensions) && b.payload.crcType <= CRC_32 {
        forall j: nat | j < |b.payload.value.data| && FragmentAt(env, b, mtu, overhead, j).Some?
          ensures EncodeBundle(env, FragmentAt(env, b, mtu, overhead, j).value.fragment).Some?
        {
          KnownFragmentEncodes(env, b, mtu, j);
        }
        FragmentsEncode(env, b, mtu, overhead, 0);
      }
    }
  }

  /** Every bundle that Fragment returns can be written and takes at most mtu bytes, if the bundle's own blocks have known
      checksum types, as they have if it can be written itself. Otherwise the bound holds for those that can be written. */
  lemma FragmentsRespectMtu(env: Env, b: Bundle, mtu: int)
    requires Splittable(env, b) && -INT_LIMIT <= mtu < INT_LIMIT && Fragments(env, b, mtu).Some?
    ensures AllFit(env, Fragments(env, b, mtu).value, mtu)
    ensures KnownChecksums(b.extensions) && b.payload.crcType <= CRC_32 ==> AllWithin(env, Fragments(env, b, mtu).value, mtu)
    ensures EncodeBundle(env, b).Some? ==> AllWithin(env, Fragments(env, b, mtu).value, mtu)
  {
    hide EncodeBundle, Fragments, Splittable, KnownChecksums, BlocksOverhead;
    IsFragmentable(env, b);
    WritableFragmentsFit(env, b, mtu);
    FragmentsEncodeExactly(env, b, mtu);
    if EncodeBundle(env, b).Some? {
      WritableIsKnown(env, b);
    }
    assert b.payload.value.data == [] ==> AllEncode(env, Fragments(env, b, mtu).value);
  }

  lemma WritableIsKnown(env: Env, b: Bundle)
    requires EncodeBundle(env, b).Some?
    ensures KnownChecksums(b.extensions) && b.payload.crcType <= CRC_32
  {
    hide EncodePrimary, EncodeCanonical, EncodeBundle;
    BundleEncodesExactly(env, b);
    forall cb | cb in b.extensions ensures cb.crcType <= CRC_32 {
      BlockEncodesExactly(env, cb);
    }
    BlockEncodesExactly(env, b.payload);
  }

  lemma WritableFragmentsFit(env: Env, b: Bundle, mtu: int)
    requires Splittable(env, b) && -INT_LIMIT <= mtu < INT_LIMIT && Fragments(env, b, mtu).Some?
    ensures AllFit(env, Fragments(env, b, mtu).value, mtu)
  {
    hide EncodeBundle, BlocksOverhead, FragmentAt, Splittable;
    IsFragmentable(env, b);
    var overhead := BlocksOverhead(env, b, mtu).value;
    AllFragmentsFit(env, b, mtu, 0);
    var bs := FragmentsFrom(env, b, mtu, overhead, 0).value;
    if |bs| == 1 {
      var piece := FragmentAt(env, b, mtu, overhead, 0).value;
      assert FragmentsFrom(env, b, mtu, overhead, piece.room).value == bs[1..] == [];
      OriginalFits(env, b, mtu);
    }
  }

  // ---------------------------------------------------------------- the bound is reached

  /** Nothing is estimated too high: longest checksums, and numbers that take one byte. */
  ghost predicate Exact(blocks: seq<CanonicalBlock>) {
    forall cb :: cb in blocks ==> cb.crcType == CRC_32 && cb.number <= 23
  }

  lemma {:induction false} ShortHeads(ns: seq<uint64>)
    requires forall i :: 0 <= i < |ns| ==> ns[i] <= 23
    ensures HeadSum(ns) == |ns|
  {
    if ns != [] {
      ShortHeads(ns[..|ns| - 1]);
    }
  }

  lemma {:induction false} ExactlyEstimate(env: Env, blocks: seq<CanonicalBlock>, numbered: seq<CanonicalBlock>)
    requires Plain(blocks) && Exact(blocks) && |numbered| == |blocks|
    requires forall i :: 0 <= i < |blocks| ==> numbered[i] == blocks[i].(number := numbered[i].number)
    requires forall cb :: cb in numbered ==> EncodeCanonical(env, cb).Some?
    ensures BlocksLength(env, numbered) == HeadSum(NumbersOf(numbered)) + EstimatedRest(blocks)
  {
    hide EncodeCanonical, RestLength, HeadLength, MarshalValue;
    if blocks != [] {
      var n := |blocks| - 1;
      assert blocks[n] in blocks && numbered[n] in numbered;
      assert forall x :: x in numbered[..n] ==> x in numbered;
      ExactlyEstimate(env, blocks[..n], numbered[..n]);
      CanonicalHasLength(env, numbered[n]);
      SameRest(blocks[n], numbered[n].number);
      assert NumbersOf(numbered)[..n] == NumbersOf(numbered[..n]);
    }
  }

  lemma SameRest(cb: CanonicalBlock, number: uint64)
    requires MarshalValue(cb.value).Some? && cb.crcType == CRC_32
    ensures RestLength(cb.(number := number)) == RestLength(cb.(crcType := CRC_32))
  {
    hide MarshalValue, Length;
  }

  lemma NotMany(blocks: seq<CanonicalBlock>)
    requires Plain(blocks) && Exact(blocks) && DistinctNumbers(blocks)
    ensures |blocks| <= 22
  {
    if blocks != [] {
      var ns := NumbersOf(blocks);
      forall i | 0 <= i < |ns| ensures 2 <= ns[i] <= 23 {
        assert blocks[i] in blocks;
      }
      var m := LargeNumber(ns);
    }
  }

  lemma ExtensionsFillTheirRoom(env: Env, blocks: seq<CanonicalBlock>, mtu: int, first: bool)
    requires Plain(blocks) && Exact(blocks) && DistinctNumbers(blocks) && |blocks| <= MAX_BLOCKS
    requires -INT_LIMIT <= mtu < INT_LIMIT && ExtensionsOverhead(env, blocks, mtu).Some?
    requires EncodeBlocks(env, AddAll(Kept(blocks, first))).Some?
    ensures var o := ExtensionsOverhead(env, blocks, mtu).value;
            BlocksLength(env, AddAll(Kept(blocks, first))) == if first then o.first else o.others
  {
    hide EncodeCanonical, EstimatedRest, HeadSum, ExtensionsOverhead, AddAll;
    hide Kept, DistinctNumbers, NumbersOf, MarshalValue, BlocksLength;
    var kept := Kept(blocks, first);
    OverheadSums(env, blocks, mtu);
    KeptDistinct(blocks, first);
    AddAllRenumbers(kept);
    NotMany(kept);
    ExactlyEstimate(env, kept, Renumbered(kept));
    ExactNumbers(kept);
    ShortHeads(NumbersOf(kept));
    ShortHeads(NumbersOf(Renumbered(kept)));
  }

  lemma ExactNumbers(blocks: seq<CanonicalBlock>)
    requires Exact(blocks) && |blocks| <= 22
    ensures forall i :: 0 <= i < |blocks| ==> NumbersOf(blocks)[i] <= 23 && NumbersOf(Renumbered(blocks))[i] <= 23
  {
    forall i | 0 <= i < |blocks| ensures NumbersOf(blocks)[i] <= 23 {
      assert blocks[i] in blocks;
    }
  }

  lemma PayloadFillsItsRoom(env: Env, b: Bundle, mtu: int, payload: CanonicalBlock)
    requires 0 <= mtu < INT_LIMIT
    requires EncodeCanonical(env, PayloadStub(b)).Some? && EncodeCanonical(env, payload).Some?
    requires payload.value.PayloadBlock? && payload.number == 1 && payload.flags == b.payload.flags && payload.crcType == CRC_32
    requires |payload.value.data| <= mtu
    ensures |EncodeCanonical(env, payload).value| + HeadLength(mtu) - HeadLength(|payload.value.data|)
         == |EncodeCanonical(env, PayloadStub(b)).value| + LengthGrowth(mtu) + |payload.value.data|
  {
    hide EncodeCanonical, HeadLength;
    CanonicalHasLength(env, payload);
    CanonicalHasLength(env, PayloadStub(b));
    SmallHeads(payload.crcType);
  }

  /** Is there payload behind this fragment? */
  predicate NotLast(b: Bundle, f: Bundle) {
    End(f) < |Data(b)|
  }

  lemma FragmentIsFull(env: Env, b: Bundle, mtu: int, i: nat)
    requires Splittable(env, b) && Exact(b.extensions) && b.payload.crcType == CRC_32
    requires -INT_LIMIT <= mtu < INT_LIMIT && BlocksOverhead(env, b, mtu).Some?
    requires i < |b.payload.value.data| && FragmentAt(env, b, mtu, BlocksOverhead(env, b, mtu).value, i).Some?
    ensures var f := FragmentAt(env, b, mtu, BlocksOverhead(env, b, mtu).value, i).value.fragment;
            NotLast(b, f) && EncodeBundle(env, f).Some? ==>
              |Data(f)| < mtu && |EncodeBundle(env, f).value| == mtu - (HeadLength(mtu) - HeadLength(|Data(f)|))
  {
    hide EncodePrimary, EncodeCanonical, EncodeBundle, ExtensionsOverhead, CheckBundle;
    hide AddAll, Kept, LengthGrowth, BlocksLength, EncodeBlocks, Exact, HeadLength;
    var overhead := BlocksOverhead(env, b, mtu).value;
    var f := FragmentAt(env, b, mtu, overhead, i).value.fragment;
    if NotLast(b, f) && EncodeBundle(env, f).Some? {
      SplittablePlain(env, b, mtu);
      BundleHasLength(env, f);
      ChecksumIsNotEncoded(env, FragmentPrimary(b.primary, i, |b.payload.value.data|), f.primary.crc);
      ExtensionsFillTheirRoom(env, b.extensions, mtu, i == 0);
      PayloadFillsItsRoom(env, b, mtu, f.payload);
    }
  }

  ghost predicate AllFull(env: Env, b: Bundle, fs: seq<Bundle>, mtu: int)
    requires 0 <= mtu < INT_LIMIT
  {
    forall f :: f in fs && NotLast(b, f) && EncodeBundle(env, f).Some? ==>
      |Data(f)| < mtu && |EncodeBundle(env, f).value| == mtu - (HeadLength(mtu) - HeadLength(|Data(f)|))
  }

  lemma {:induction false} AllFragmentsAreFull(env: Env, b: Bundle, mtu: int, i: nat)
    requires Splittable(env, b) && Exact(b.extensions) && b.payload.crcType == CRC_32
    requires 0 <= mtu < INT_LIMIT && BlocksOverhead(env, b, mtu).Some?
    requires FragmentsFrom(env, b, mtu, BlocksOverhead(env, b, mtu).value, i).Some?
    ensures AllFull(env, b, FragmentsFrom(env, b, mtu, BlocksOverhead(env, b, mtu).value, i).value, mtu)
    decreases |b.payload.value.data| - i
  {
    hide FragmentAt, EncodeBundle, BlocksOverhead, Splittable, HeadLength, Data, End, Exact;
    assert Fragmentable(b) by { IsFragmentable(env, b); }
    if i < |b.payload.value.data| {
      var overhead := BlocksOverhead(env, b, mtu).value;
      var piece := FragmentAt(env, b, mtu, overhead, i).value;
      FragmentIsFull(env, b, mtu, i);
      AllFragmentsAreFull(env, b, mtu, i + piece.room);
    }
  }

  /** Nor is room wasted: where no checksum and no block number is shorter than estimated, every fragment but the last takes
      exactly the mtu, up to the bytes by which the length field for mtu bytes is longer than the one for its payload. */
  lemma FragmentsFillMtu(env: Env, b: Bundle, mtu: int)
    requires Splittable(env, b) && Exact(b.extensions) && b.payload.crcType == CRC_32
    requires 0 <= mtu < INT_LIMIT && Fragments(env, b, mtu).Some? && |Fragments(env, b, mtu).value| != 1
    ensures AllFull(env, b, Fragments(env, b, mtu).value, mtu)
  {
    hide EncodeBundle, BlocksOverhead, FragmentAt, FragmentsFrom, Splittable, AllFull;
    IsFragmentable(env, b);
    AllFragmentsAreFull(env, b, mtu, 0);
  }
}
