/** When fragmentation succeeds: the exact condition for a single fragment and for the whole call. */
module FragmentSuccess {
  import opened Bytes
  import opened Cbor
  import opened Endpoint
  import opened Blocks
  import opened BlockCodec
  import opened PrimaryCodec
  import opened BlockStreams
  import opened Numbering
  import opened Fragmentation
  import opened Forwarding
  import opened MtuBound

  // ---------------------------------------------------------------- primary block

  lemma WithoutFragmentFlag(flags: uint64)
    requires !Has(flags, IS_FRAGMENT)
    ensures flags % 2 == 0 && SetFragment(flags) == flags + 1
  {
  }

  lemma AdministrativeStays(flags: uint64)
    requires flags % 2 == 0 && flags + 1 < TWO_TO_THE_64
    ensures Has(flags + 1, ADMINISTRATIVE_RECORD) <==> Has(flags, ADMINISTRATIVE_RECORD)
  {
    var q := flags / 2;
    assert flags == 2 * q;
    assert (flags + 1) / 2 == q;
  }

  lemma MustNotStays(flags: uint64)
    requires flags % 2 == 0 && flags + 1 < TWO_TO_THE_64
    ensures Has(flags + 1, MUST_NOT_FRAGMENT) <==> Has(flags, MUST_NOT_FRAGMENT)
  {
    var q := flags / 4;
    assert 4 * q <= flags < 4 * q + 3;
    assert (flags + 1) / 4 == q;
  }

  lemma ReceptionStays(flags: uint64)
    requires flags % 2 == 0 && flags + 1 < TWO_TO_THE_64
    ensures Has(flags + 1, STATUS_RECEPTION) <==> Has(flags, STATUS_RECEPTION)
  {
    var q := flags / STATUS_RECEPTION;
    assert STATUS_RECEPTION * q <= flags < STATUS_RECEPTION * q + STATUS_RECEPTION - 1;
    assert (flags + 1) / STATUS_RECEPTION == q;
  }

  lemma ForwardStays(flags: uint64)
    requires flags % 2 == 0 && flags + 1 < TWO_TO_THE_64
    ensures Has(flags + 1, STATUS_FORWARD) <==> Has(flags, STATUS_FORWARD)
  {
    var q := flags / STATUS_FORWARD;
    assert STATUS_FORWARD * q <= flags < STATUS_FORWARD * q + STATUS_FORWARD - 1;
    assert (flags + 1) / STATUS_FORWARD == q;
  }

  lemma DeliveryStays(flags: uint64)
    requires flags % 2 == 0 && flags + 1 < TWO_TO_THE_64
    ensures Has(flags + 1, STATUS_DELIVERY) <==> Has(flags, STATUS_DELIVERY)
  {
    var q := flags / STATUS_DELIVERY;
    assert STATUS_DELIVERY * q <= flags < STATUS_DELIVERY * q + STATUS_DELIVERY - 1;
    assert (flags + 1) / STATUS_DELIVERY == q;
  }

  lemma DeletionStays(flags: uint64)
    requires flags % 2 == 0 && flags + 1 < TWO_TO_THE_64
    ensures Has(flags + 1, STATUS_DELETION) <==> Has(flags, STATUS_DELETION)
  {
    var q := flags / STATUS_DELETION;
    assert STATUS_DELETION * q <= flags < STATUS_DELETION * q + STATUS_DELETION - 1;
    assert (flags + 1) / STATUS_DELETION == q;
  }

  lemma OtherFlagsStay(flags: uint64, mask: uint64)
    requires !Has(flags, IS_FRAGMENT)
    requires mask in {ADMINISTRATIVE_RECORD, MUST_NOT_FRAGMENT}
          || mask in {STATUS_RECEPTION, STATUS_FORWARD, STATUS_DELIVERY, STATUS_DELETION}
    ensures Has(SetFragment(flags), mask) <==> Has(flags, mask)
  {
    hide Has, SetFragment;
    WithoutFragmentFlag(flags);
    AdministrativeStays(flags);
    MustNotStays(flags);
    ReceptionStays(flags);
    ForwardStays(flags);
    DeliveryStays(flags);
    DeletionStays(flags);
  }

  lemma FragmentPrimaryValid(env: Env, pb: PrimaryBlock, offset: uint64, total: uint64, crc: seq<byte>)
    requires pb.CheckValid() && !pb.HasFragmentation() && !Has(pb.flags, MUST_NOT_FRAGMENT)
    ensures FragmentPrimary(pb, offset, total).(crc := crc).CheckValid()
  {
    hide Has, SetFragment, Endpoint.CheckValid;
    OtherFlagsStay(pb.flags, ADMINISTRATIVE_RECORD);
    OtherFlagsStay(pb.flags, MUST_NOT_FRAGMENT);
    OtherFlagsStay(pb.flags, STATUS_RECEPTION);
    OtherFlagsStay(pb.flags, STATUS_FORWARD);
    OtherFlagsStay(pb.flags, STATUS_DELIVERY);
    OtherFlagsStay(pb.flags, STATUS_DELETION);
  }

  // ---------------------------------------------------------------- extension blocks

  /** Of each type, a fragment keeps some of the blocks. */
  lemma {:induction false} KeptOfType(blocks: seq<CanonicalBlock>, first: bool, code: uint64)
    ensures multiset(OfType(Kept(blocks, first), code)) <= multiset(OfType(blocks, code))
  {
    hide OfType;
    if blocks == [] {
    } else {
      var n := |blocks| - 1;
      KeptOfType(blocks[..n], first, code);
      assert blocks == blocks[..n] + [blocks[n]];
      OfTypeJoined(blocks[..n], [blocks[n]], code);
      OfTypeJoined(Kept(blocks[..n], first), [blocks[n]], code);
      assert Kept(blocks[..n], first) + [] == Kept(blocks[..n], first);
    }
  }

  lemma SubMultiset(a: seq<CanonicalBlock>, b: seq<CanonicalBlock>)
    requires multiset(a) <= multiset(b) && |b| == 1 && a != []
    ensures a == b
  {
    assert a == [a[0]] + a[1..] && b == [b[0]];
    assert a[0] in multiset(a);
    assert multiset(a[1..]) == multiset(a) - multiset{a[0]} <= multiset{};
    assert |multiset(a[1..])| == |a[1..]|;
  }

  lemma KeptSingle(blocks: seq<CanonicalBlock>, first: bool, code: uint64)
    requires |OfType(blocks, code)| == 1
    ensures OfType(Kept(blocks, first), code) in {[], OfType(blocks, code)}
  {
    hide OfType;
    KeptOfType(blocks, first, code);
    if OfType(Kept(blocks, first), code) != [] {
      SubMultiset(OfType(Kept(blocks, first), code), OfType(blocks, code));
    }
  }

  lemma KeptValid(blocks: seq<CanonicalBlock>, first: bool)
    requires ExtensionsValid(blocks)
    ensures ExtensionsValid(Kept(blocks, first))
  {
    hide OfType, Kept, DistinctNumbers;
    var kept := Kept(blocks, first);
    KeptDistinct(blocks, first);
    forall i | 0 <= i < |kept| ensures kept[i].CheckValid() && ContextValid(kept, kept[i].value) {
      assert kept[i] in kept && kept[i] in blocks;
      var k := PositionOf(blocks, kept[i]);
      assert blocks[k].CheckValid() && ContextValid(blocks, blocks[k].value);
      var code := kept[i].TypeCode();
      assert kept[i] in OfType(kept, code);
      if |OfType(blocks, code)| == 1 {
        KeptSingle(blocks, first, code);
      }
    }
  }

  lemma RenumberedValid(blocks: seq<CanonicalBlock>)
    requires ExtensionsValid(blocks) && |blocks| <= MAX_BLOCKS && forall cb :: cb in blocks ==> cb.TypeCode() != TYPE_PAYLOAD
    ensures ExtensionsValid(Renumbered(blocks))
  {
    hide OfType, ContextValid;
    var r := Renumbered(blocks);
    forall i | 0 <= i < |r| ensures r[i].TypeCode() != TYPE_PAYLOAD {
      assert blocks[i] in blocks;
    }
    ExtensionsSameValues(blocks, r);
  }

  // ---------------------------------------------------------------- the clock

  /** A bundle with a creation time, or an age block that every fragment gets. */
  predicate AgeSurvives(b: Bundle) {
    b.primary.timestamp.time != 0 || OfType(Kept(b.extensions, false), TYPE_BUNDLE_AGE) != []
  }

  lemma FragmentInTime(env: Env, b: Bundle, first: bool, f: Bundle)
    requires TimeValid(env, b) && |b.extensions| <= MAX_BLOCKS
    requires f.primary.timestamp == b.primary.timestamp && f.primary.lifetime == b.primary.lifetime
    requires f.extensions == Renumbered(Kept(b.extensions, first))
    ensures TimeValid(env, f) <==> first || AgeSurvives(b)
  {
    hide OfType, Renumbered, Kept;
    var kept := b.(extensions := Kept(b.extensions, first));
    SameAfterRenumbering(Kept(b.extensions, first));
    TimeSameValues(env, kept, f);
    if b.primary.timestamp.time == 0 {
      KeptSingle(b.extensions, first, TYPE_BUNDLE_AGE);
    }
  }

  lemma SameAfterRenumbering(blocks: seq<CanonicalBlock>)
    requires |blocks| <= MAX_BLOCKS
    ensures SameValues(blocks, Renumbered(blocks))
  {
  }

  // ---------------------------------------------------------------- the condition

  /** The bytes a fragment takes without its payload data. */
  function Used(env: Env, b: Bundle, overhead: Overhead, i: nat): nat
    requires Fragmentable(b) && i < |b.payload.value.data|
    requires EncodePrimary(env, FragmentPrimary(b.primary, i, |b.payload.value.data|)).Some?
  {
    2 + |EncodePrimary(env, FragmentPrimary(b.primary, i, |b.payload.value.data|)).value|
    + if i == 0 then overhead.first else overhead.others
  }

  lemma FragmentValidExactly(env: Env, b: Bundle, i: nat, f: Bundle)
    requires Splittable(env, b) && !Has(b.primary.flags, MUST_NOT_FRAGMENT) && i < |b.payload.value.data|
    requires f.primary == FragmentPrimary(b.primary, i, |b.payload.value.data|).(crc := f.primary.crc)
    requires f.extensions == AddAll(Kept(b.extensions, i == 0))
    requires f.payload == CanonicalBlock(1, b.payload.flags, b.payload.crcType, [], f.payload.value) && f.payload.value.PayloadBlock?
    ensures CheckBundle(env, f) <==> i == 0 || AgeSurvives(b)
  {
    hide TimeValid, Has, SetFragment, AddAll, Kept, AgeSurvives, Renumbered, ContextValid, DistinctNumbers;
    FragmentPrimaryValid(env, b.primary, i, |b.payload.value.data|, f.primary.crc);
    var kept := Kept(b.extensions, i == 0);
    forall cb | cb in kept ensures cb.TypeCode() != TYPE_PAYLOAD {
      NotPayload(env, b, cb);
    }
    AddAllRenumbers(kept);
    KeptValid(b.extensions, i == 0);
    RenumberedValid(kept);
    FragmentInTime(env, b, i == 0, f);
  }

  lemma NotPayload(env: Env, b: Bundle, cb: CanonicalBlock)
    requires Splittable(env, b) && cb in b.extensions
    ensures cb.TypeCode() != TYPE_PAYLOAD
  {
    hide TimeValid, ContextValid, DistinctNumbers;
    var k := PositionOf(b.extensions, cb);
    assert b.extensions[k].CheckValid();
  }

  /** The fragment from byte `i` on, whether it is valid or not. */
  function Candidate(env: Env, b: Bundle, mtu: int, overhead: Overhead, i: nat): Bundle
    requires Fragmentable(b) && i < |b.payload.value.data|
    requires EncodePrimary(env, FragmentPrimary(b.primary, i, |b.payload.value.data|)).Some? && Used(env, b, overhead, i) < mtu
  {
    var n := |b.payload.value.data|;
    var room := mtu - Used(env, b, overhead, i);
    Bundle(StampedPrimary(env, FragmentPrimary(b.primary, i, n)), AddAll(Kept(b.extensions, i == 0)),
           FragmentPayload(b, i, if i + room < n then i + room else n))
  }

  lemma FragmentAtIsCandidate(env: Env, b: Bundle, mtu: int, overhead: Overhead, i: nat)
    requires Fragmentable(b) && i < |b.payload.value.data|
    ensures FragmentAt(env, b, mtu, overhead, i).Some? <==> (
              && EncodePrimary(env, FragmentPrimary(b.primary, i, |b.payload.value.data|)).Some?
              && Used(env, b, overhead, i) < mtu && CheckBundle(env, Candidate(env, b, mtu, overhead, i)))
  {
    hide EncodePrimary, CheckBundle, AddAll, Kept, StampedPrimary, FragmentPrimary, FragmentPayload;
    if EncodePrimary(env, FragmentPrimary(b.primary, i, |b.payload.value.data|)).None? {
      assert FragmentAt(env, b, mtu, overhead, i) == None;
    } else if Used(env, b, overhead, i) >= mtu {
      assert FragmentAt(env, b, mtu, overhead, i) == None;
    } else {
      var candidate := Candidate(env, b, mtu, overhead, i);
      assert FragmentAt(env, b, mtu, overhead, i)
          == if CheckBundle(env, candidate) then Some(Piece(candidate, mtu - Used(env, b, overhead, i))) else None;
    }
  }

  lemma CandidateValid(env: Env, b: Bundle, mtu: int, overhead: Overhead, i: nat)
    requires Splittable(env, b) && !Has(b.primary.flags, MUST_NOT_FRAGMENT) && i < |b.payload.value.data|
    requires EncodePrimary(env, FragmentPrimary(b.primary, i, |b.payload.value.data|)).Some? && Used(env, b, overhead, i) < mtu
    ensures CheckBundle(env, Candidate(env, b, mtu, overhead, i)) <==> i == 0 || AgeSurvives(b)
  {
    hide EncodePrimary, CheckBundle, AddAll, Kept, AgeSurvives, Has, SetFragment, PrimaryCovered, CrcBytes, Used;
    FragmentValidExactly(env, b, i, Candidate(env, b, mtu, overhead, i));
  }

  /** A fragment is made exactly if the bundle's primary block can be written, there is room for a byte of payload, and
      the fragment is the first one or has a way to tell its age. */
  lemma FragmentAtExactly(env: Env, b: Bundle, mtu: int, overhead: Overhead, i: nat)
    requires Splittable(env, b) && !Has(b.primary.flags, MUST_NOT_FRAGMENT) && i < |b.payload.value.data|
    ensures FragmentAt(env, b, mtu, overhead, i).Some? <==>
      EncodePrimary(env, FragmentPrimary(b.primary, i, |b.payload.value.data|)).Some? && Used(env, b, overhead, i) < mtu
      && (i == 0 || AgeSurvives(b))
    ensures EncodePrimary(env, FragmentPrimary(b.primary, i, |b.payload.value.data|)).Some? <==> EncodePrimary(env, b.primary).Some?
  {
    hide FragmentAt, Candidate, Splittable, EncodePrimary, CheckBundle, AgeSurvives, Has, Used;
    IsFragmentable(env, b);
    SameEndpoints(env, b.primary, FragmentPrimary(b.primary, i, |b.payload.value.data|));
    FragmentAtIsCandidate(env, b, mtu, overhead, i);
    if EncodePrimary(env, FragmentPrimary(b.primary, i, |b.payload.value.data|)).Some? && Used(env, b, overhead, i) < mtu {
      CandidateValid(env, b, mtu, overhead, i);
    }
  }

  /** A bundle without a creation time, whose age block is not marked for replication, is never split. */
  lemma AgelessIsNotSplit(env: Env, b: Bundle, mtu: int)
    requires Splittable(env, b) && !AgeSurvives(b)
    requires -INT_LIMIT <= mtu < INT_LIMIT && Fragments(env, b, mtu).Some?
    ensures |Fragments(env, b, mtu).value| <= 1
  {
    hide FragmentAt, BlocksOverhead, Splittable, AgeSurvives, Has;
    IsFragmentable(env, b);
    var overhead := BlocksOverhead(env, b, mtu).value;
    var n := |b.payload.value.data|;
    if n > 0 {
      assert FragmentAt(env, b, mtu, overhead, 0).Some?;
      var piece := FragmentAt(env, b, mtu, overhead, 0).value;
      assert FragmentsFrom(env, b, mtu, overhead, piece.room).Some?;
      assert piece.room < n ==> FragmentAt(env, b, mtu, overhead, piece.room).Some?;
      if piece.room < n {
        FragmentAtExactly(env, b, mtu, overhead, piece.room);
      } else {
        assert FragmentsFrom(env, b, mtu, overhead, piece.room) == Some([]);
      }
    }
  }

  /** The node dtn://a/. */
  const NODE := Dtn([0x61], [])

  /** A bundle of a node without a clock: creation time 0 and an age block that is not marked for replication. */
  function Clockless(data: seq<byte>): Bundle {
    Bundle(PrimaryBlock(7, 0, CRC_NO, NODE, NODE, NODE, Timestamp(0, 0), 1, 0, 0, []),
           [CanonicalBlock(2, 0, CRC_NO, [], BundleAge(0))],
           CanonicalBlock(1, 0, CRC_NO, [], PayloadBlock(data)))
  }

  lemma ClocklessIsValid(env: Env, data: seq<byte>)
    ensures var b := Clockless(data);
            && b.primary.CheckValid() && ExtensionsValid(b.extensions) && TimeValid(env, b) && PayloadValid(b.payload)
            && !Has(b.primary.flags, MUST_NOT_FRAGMENT) && !b.primary.HasFragmentation()
  {
    hide Endpoint.CheckValid;
    assert IsNameByte(0x61);
    WellFormedIsValid(NODE);
    var b := Clockless(data);
    assert OfType(b.extensions, TYPE_BUNDLE_AGE) == b.extensions;
    assert ContextValid(b.extensions, b.extensions[0].value);
  }

  lemma ClocklessIsAgeless(data: seq<byte>)
    ensures !AgeSurvives(Clockless(data))
  {
    assert Kept(Clockless(data).extensions, false) == [];
  }

  /** It is valid, and yet none of its fragments but the first one can be made. */
  lemma ClocklessIsNotSplit(env: Env, data: seq<byte>, mtu: int, overhead: Overhead, i: nat)
    requires |data| < INT_LIMIT && 0 < i < |data|
    ensures CheckBundle(env, Clockless(data)) && Fragmentable(Clockless(data))
    ensures FragmentAt(env, Clockless(data), mtu, overhead, i) == None
  {
    var b := Clockless(data);
    hide TimeValid, ExtensionsValid, PayloadValid, PrimaryBlock.CheckValid, PrimaryBlock.HasFragmentation;
    hide Has, AgeSurvives, EncodePrimary, FragmentAt;
    ClocklessIsValid(env, data);
    ClocklessIsAgeless(data);
    assert Splittable(env, b);
    FragmentAtExactly(env, b, mtu, overhead, i);
  }

  // ---------------------------------------------------------------- the whole call

  lemma FragmentPrimaryEncodes(env: Env, b: Bundle, i: nat)
    requires Fragmentable(b) && i < |b.payload.value.data|
    ensures EncodePrimary(env, FragmentPrimary(b.primary, i, |b.payload.value.data|)).Some? <==> EncodePrimary(env, b.primary).Some?
  {
    hide EncodePrimary;
    SameEndpoints(env, b.primary, FragmentPrimary(b.primary, i, |b.payload.value.data|));
  }

  /** Going from offset to offset, each fragment has room for at least one byte of the payload. */
  predicate RoomFrom(env: Env, b: Bundle, mtu: int, overhead: Overhead, i: nat)
    requires Fragmentable(b) && EncodePrimary(env, b.primary).Some?
    decreases |b.payload.value.data| - i
  {
    i < |b.payload.value.data| ==>
      (FragmentPrimaryEncodes(env, b, i);
       var used := Used(env, b, overhead, i);
       used < mtu && RoomFrom(env, b, mtu, overhead, i + (mtu - used)))
  }

  lemma RoomOfFragment(env: Env, b: Bundle, mtu: int, overhead: Overhead, i: nat)
    requires Fragmentable(b) && i < |b.payload.value.data| && FragmentAt(env, b, mtu, overhead, i).Some?
    ensures EncodePrimary(env, FragmentPrimary(b.primary, i, |b.payload.value.data|)).Some?
    ensures FragmentAt(env, b, mtu, overhead, i).value.room == mtu - Used(env, b, overhead, i)
  {
    hide EncodePrimary, CheckBundle, AddAll, Kept;
  }

  lemma FragmentsSome(env: Env, b: Bundle, mtu: int, overhead: Overhead, i: nat, next: nat)
    requires Fragmentable(b) && i < |b.payload.value.data|
    requires FragmentAt(env, b, mtu, overhead, i).Some? ==> next == i + FragmentAt(env, b, mtu, overhead, i).value.room
    ensures FragmentsFrom(env, b, mtu, overhead, i).Some?
       <==> FragmentAt(env, b, mtu, overhead, i).Some? && FragmentsFrom(env, b, mtu, overhead, next).Some?
  {
    hide FragmentAt;
  }

  lemma RoomUnfold(env: Env, b: Bundle, mtu: int, overhead: Overhead, i: nat, next: nat)
    requires Fragmentable(b) && EncodePrimary(env, b.primary).Some? && i < |b.payload.value.data|
    requires EncodePrimary(env, FragmentPrimary(b.primary, i, |b.payload.value.data|)).Some?
    requires Used(env, b, overhead, i) < mtu ==> next == i + (mtu - Used(env, b, overhead, i))
    ensures RoomFrom(env, b, mtu, overhead, i) <==> Used(env, b, overhead, i) < mtu && RoomFrom(env, b, mtu, overhead, next)
  {
    hide EncodePrimary, Used, FragmentPrimary;
  }

  lemma RoomEnd(env: Env, b: Bundle, mtu: int, overhead: Overhead, i: nat)
    requires Fragmentable(b) && EncodePrimary(env, b.primary).Some? && i >= |b.payload.value.data|
    ensures RoomFrom(env, b, mtu, overhead, i)
  {
  }

  /** From an offset behind the first fragment on, all fragments are made if there is room and they can tell their age. */
  ghost predicate LaterExactly(env: Env, b: Bundle, mtu: int, overhead: Overhead, i: nat)
    requires Fragmentable(b) && EncodePrimary(env, b.primary).Some?
  {
    var done := i >= |b.payload.value.data|;
    FragmentsFrom(env, b, mtu, overhead, i).Some? <==> done || (AgeSurvives(b) && RoomFrom(env, b, mtu, overhead, i))
  }

  lemma LaterStep(env: Env, b: Bundle, mtu: int, overhead: Overhead, i: nat, next: nat)
    requires Splittable(env, b) && !Has(b.primary.flags, MUST_NOT_FRAGMENT)
    requires Fragmentable(b) && EncodePrimary(env, b.primary).Some? && 0 < i < |b.payload.value.data|
    requires var p := FragmentAt(env, b, mtu, overhead, i);
             p.Some? ==> next == i + p.value.room && LaterExactly(env, b, mtu, overhead, next)
    ensures LaterExactly(env, b, mtu, overhead, i)
  {
    hide FragmentAt, FragmentsFrom, RoomFrom, Splittable, AgeSurvives, Has, EncodePrimary, Used, FragmentPrimary;
    FragmentAtExactly(env, b, mtu, overhead, i);
    FragmentsSome(env, b, mtu, overhead, i, next);
    if FragmentAt(env, b, mtu, overhead, i).Some? {
      RoomOfFragment(env, b, mtu, overhead, i);
      RoomUnfold(env, b, mtu, overhead, i, next);
      if next >= |b.payload.value.data| {
        RoomEnd(env, b, mtu, overhead, next);
      }
    } else if AgeSurvives(b) {
      RoomUnfold(env, b, mtu, overhead, i, next);
    }
  }

  lemma LaterEnd(env: Env, b: Bundle, mtu: int, overhead: Overhead, i: nat)
    requires Fragmentable(b) && EncodePrimary(env, b.primary).Some? && i >= |b.payload.value.data|
    ensures LaterExactly(env, b, mtu, overhead, i)
  {
  }

  lemma {:induction false} LaterFragments(env: Env, b: Bundle, mtu: int, overhead: Overhead, i: nat)
    requires Splittable(env, b) && !Has(b.primary.flags, MUST_NOT_FRAGMENT) && i > 0
    requires Fragmentable(b) && EncodePrimary(env, b.primary).Some?
    ensures LaterExactly(env, b, mtu, overhead, i)
    decreases |b.payload.value.data| - i
  {
    hide FragmentAt, LaterExactly, Splittable, Has, EncodePrimary;
    if i < |b.payload.value.data| {
      var p := FragmentAt(env, b, mtu, overhead, i);
      var next := if p.Some? then i + p.value.room else i;
      if p.Some? {
        LaterFragments(env, b, mtu, overhead, next);
      }
      LaterStep(env, b, mtu, overhead, i, next);
    } else {
      LaterEnd(env, b, mtu, overhead, i);
    }
  }

  ghost predicate AllMarshal(blocks: seq<CanonicalBlock>) {
    forall cb :: cb in blocks ==> MarshalValue(cb.value).Some?
  }

  lemma {:induction false} ExtensionsOverheadExactly(env: Env, blocks: seq<CanonicalBlock>, mtu: int)
    requires -INT_LIMIT <= mtu < INT_LIMIT && forall cb :: cb in blocks ==> cb.TypeCode() != TYPE_PAYLOAD
    ensures ExtensionsOverhead(env, blocks, mtu).Some? <==> AllMarshal(blocks)
  {
    hide EncodeCanonical, MarshalValue;
    if blocks != [] {
      var n := |blocks| - 1;
      assert blocks == blocks[..n] + [blocks[n]] && blocks[n] in blocks;
      assert forall cb :: cb in blocks[..n] ==> cb in blocks;
      ExtensionsOverheadExactly(env, blocks[..n], mtu);
      BlockEncodesExactly(env, Estimated(blocks[n]));
    }
  }

  lemma OverheadExactly(env: Env, b: Bundle, mtu: int)
    requires Splittable(env, b) && -INT_LIMIT <= mtu < INT_LIMIT
    ensures BlocksOverhead(env, b, mtu).Some? <==> AllMarshal(b.extensions)
  {
    hide EncodeCanonical, ExtensionsOverhead, AllMarshal, Splittable;
    forall cb | cb in b.extensions ensures cb.TypeCode() != TYPE_PAYLOAD {
      NotPayload(env, b, cb);
    }
    ExtensionsOverheadExactly(env, b.extensions, mtu);
    BlockEncodesExactly(env, PayloadStub(b));
  }

  /** All of the payload fits into one fragment, or the later fragments can tell their age. */
  ghost predicate OneOrAged(env: Env, b: Bundle, mtu: int, overhead: Overhead)
    requires Fragmentable(b) && b.payload.value.data != [] && EncodePrimary(env, b.primary).Some?
  {
    FragmentPrimaryEncodes(env, b, 0);
    mtu - Used(env, b, overhead, 0) >= |b.payload.value.data| || AgeSurvives(b)
  }

  lemma LoopSucceedsExactly(env: Env, b: Bundle, mtu: int, overhead: Overhead)
    requires Splittable(env, b) && Fragmentable(b) && !Has(b.primary.flags, MUST_NOT_FRAGMENT) && b.payload.value.data != []
    ensures FragmentsFrom(env, b, mtu, overhead, 0).Some? <==> (
              && EncodePrimary(env, b.primary).Some?
              && RoomFrom(env, b, mtu, overhead, 0) && OneOrAged(env, b, mtu, overhead))
  {
    hide FragmentAt, Splittable, AgeSurvives, Has, EncodePrimary, Used;
    FragmentAtExactly(env, b, mtu, overhead, 0);
    if FragmentAt(env, b, mtu, overhead, 0).Some? {
      RoomOfFragment(env, b, mtu, overhead, 0);
      LaterFragments(env, b, mtu, overhead, FragmentAt(env, b, mtu, overhead, 0).value.room);
    }
  }

  lemma UsedMonotone(env: Env, b: Bundle, overhead: Overhead, i: nat, j: nat)
    requires Fragmentable(b) && 0 < i <= j < |b.payload.value.data| && EncodePrimary(env, b.primary).Some?
    ensures EncodePrimary(env, FragmentPrimary(b.primary, i, |b.payload.value.data|)).Some?
    ensures EncodePrimary(env, FragmentPrimary(b.primary, j, |b.payload.value.data|)).Some?
    ensures Used(env, b, overhead, i) <= Used(env, b, overhead, j)
  {
    hide EncodePrimary, HeadLength, Endpoints, Times;
    var n := |b.payload.value.data|;
    FragmentPrimaryEncodes(env, b, i);
    FragmentPrimaryEncodes(env, b, j);
    PrimaryHasLength(env, FragmentPrimary(b.primary, i, n));
    PrimaryHasLength(env, FragmentPrimary(b.primary, j, n));
    HeadLengthMonotone(i, j);
    SameTail(b.primary, i, j, n);
  }

  lemma SameTail(pb: PrimaryBlock, i: uint64, j: uint64, n: uint64)
    ensures Endpoints(FragmentPrimary(pb, i, n)) == Endpoints(FragmentPrimary(pb, j, n))
    ensures Times(FragmentPrimary(pb, i, n)) == Times(FragmentPrimary(pb, j, n))
  {
    hide EncodeEndpoint;
  }

  /** There is room for a byte of payload in the fragment from byte `i` on. */
  predicate Fits(env: Env, b: Bundle, mtu: int, overhead: Overhead, i: nat)
    requires Fragmentable(b) && i < |b.payload.value.data|
  {
    EncodePrimary(env, FragmentPrimary(b.primary, i, |b.payload.value.data|)).Some? && Used(env, b, overhead, i) < mtu
  }

  lemma EarlierFits(env: Env, b: Bundle, mtu: int, overhead: Overhead, i: nat, j: nat)
    requires Fragmentable(b) && 0 < i <= j < |b.payload.value.data| && EncodePrimary(env, b.primary).Some?
    requires Fits(env, b, mtu, overhead, j)
    ensures Fits(env, b, mtu, overhead, i)
  {
    hide EncodePrimary, Used, FragmentPrimary;
    UsedMonotone(env, b, overhead, i, j);
  }

  lemma NextOffset(env: Env, b: Bundle, mtu: int, overhead: Overhead, i: nat) returns (next: nat)
    requires Fragmentable(b) && EncodePrimary(env, b.primary).Some? && i < |b.payload.value.data|
    requires Fits(env, b, mtu, overhead, i)
    ensures next > i && (RoomFrom(env, b, mtu, overhead, next) ==> RoomFrom(env, b, mtu, overhead, i))
  {
    hide EncodePrimary, Used, FragmentPrimary, RoomFrom;
    next := i + (mtu - Used(env, b, overhead, i));
    RoomUnfold(env, b, mtu, overhead, i, next);
  }

  /** There is room at every offset if there is some in the first fragment, and would be in one with the last byte only. */
  lemma {:induction false} EnoughRoom(env: Env, b: Bundle, mtu: int, overhead: Overhead, i: nat)
    requires Fragmentable(b) && EncodePrimary(env, b.primary).Some? && i < |b.payload.value.data|
    requires Fits(env, b, mtu, overhead, i) && Fits(env, b, mtu, overhead, |b.payload.value.data| - 1)
    ensures RoomFrom(env, b, mtu, overhead, i)
    decreases |b.payload.value.data| - i
  {
    hide EncodePrimary, Fits, RoomFrom;
    var n := |b.payload.value.data|;
    var next := NextOffset(env, b, mtu, overhead, i);
    if next < n {
      EarlierFits(env, b, mtu, overhead, next, n - 1);
      EnoughRoom(env, b, mtu, overhead, next);
    } else {
      RoomEnd(env, b, mtu, overhead, next);
    }
  }

  /** The offset of the last fragment, if each takes what there is room for, and one byte if there is none. */
  function LastOffset(env: Env, b: Bundle, mtu: int, overhead: Overhead, i: nat): (last: nat)
    requires Fragmentable(b) && EncodePrimary(env, b.primary).Some? && i < |b.payload.value.data|
    ensures i <= last < |b.payload.value.data|
    decreases |b.payload.value.data| - i
  {
    FragmentPrimaryEncodes(env, b, i);
    var used := Used(env, b, overhead, i);
    var next := i + if used < mtu then mtu - used else 1;
    if next >= |b.payload.value.data| then i else LastOffset(env, b, mtu, overhead, next)
  }

  lemma FitsExactly(env: Env, b: Bundle, mtu: int, overhead: Overhead, i: nat) returns (next: nat)
    requires Fragmentable(b) && EncodePrimary(env, b.primary).Some? && i < |b.payload.value.data|
    ensures next > i
    ensures LastOffset(env, b, mtu, overhead, i)
         == if next >= |b.payload.value.data| then i else LastOffset(env, b, mtu, overhead, next)
    ensures RoomFrom(env, b, mtu, overhead, i) <==> Fits(env, b, mtu, overhead, i) && RoomFrom(env, b, mtu, overhead, next)
  {
    hide EncodePrimary, Used, FragmentPrimary, RoomFrom;
    FragmentPrimaryEncodes(env, b, i);
    var used := Used(env, b, overhead, i);
    next := i + if used < mtu then mtu - used else 1;
    RoomUnfold(env, b, mtu, overhead, i, next);
  }

  lemma {:induction false} LaterRoomExactly(env: Env, b: Bundle, mtu: int, overhead: Overhead, i: nat)
    requires Fragmentable(b) && EncodePrimary(env, b.primary).Some? && 0 < i < |b.payload.value.data|
    ensures RoomFrom(env, b, mtu, overhead, i) <==> Fits(env, b, mtu, overhead, LastOffset(env, b, mtu, overhead, i))
    decreases |b.payload.value.data| - i
  {
    hide EncodePrimary, Fits, RoomFrom, LastOffset;
    var n := |b.payload.value.data|;
    var next := FitsExactly(env, b, mtu, overhead, i);
    if Fits(env, b, mtu, overhead, LastOffset(env, b, mtu, overhead, i)) {
      EarlierFits(env, b, mtu, overhead, i, LastOffset(env, b, mtu, overhead, i));
    }
    if next < n {
      LaterRoomExactly(env, b, mtu, overhead, next);
    } else {
      RoomEnd(env, b, mtu, overhead, next);
    }
  }

  /** There is room at every offset exactly if there is some in the first and in the last fragment. */
  lemma RoomExactly(env: Env, b: Bundle, mtu: int, overhead: Overhead)
    requires Fragmentable(b) && EncodePrimary(env, b.primary).Some? && b.payload.value.data != []
    ensures RoomFrom(env, b, mtu, overhead, 0) <==>
      Fits(env, b, mtu, overhead, 0) && Fits(env, b, mtu, overhead, LastOffset(env, b, mtu, overhead, 0))
  {
    hide EncodePrimary, Fits, RoomFrom, LastOffset;
    var next := FitsExactly(env, b, mtu, overhead, 0);
    if next < |b.payload.value.data| {
      LaterRoomExactly(env, b, mtu, overhead, next);
    } else {
      RoomEnd(env, b, mtu, overhead, next);
    }
  }

  /** The overhead, which there is if the values of all extension blocks can be written. */
  ghost function OverheadOf(env: Env, b: Bundle, mtu: int): Overhead
    requires Splittable(env, b) && -INT_LIMIT <= mtu < INT_LIMIT && AllMarshal(b.extensions)
  {
    OverheadExactly(env, b, mtu);
    BlocksOverhead(env, b, mtu).value
  }

  /** Fragment succeeds exactly if splitting is allowed, the values of all extension blocks can be written, and either the
      payload is empty or the primary block can be written, the first and the last fragment have room for a byte, and the
      bundle either fits into one fragment or has a way to tell the age of the others. */
  lemma FragmentsExactly(env: Env, b: Bundle, mtu: int)
    requires Splittable(env, b) && Fragmentable(b) && -INT_LIMIT <= mtu < INT_LIMIT
    ensures Fragments(env, b, mtu).Some? <==> (
              && !Has(b.primary.flags, MUST_NOT_FRAGMENT) && AllMarshal(b.extensions)
              && var overhead := OverheadOf(env, b, mtu);
              b.payload.value.data == [] || (
                && EncodePrimary(env, b.primary).Some?
                && Fits(env, b, mtu, overhead, 0) && Fits(env, b, mtu, overhead, LastOffset(env, b, mtu, overhead, 0))
                && OneOrAged(env, b, mtu, overhead)))
  {
    hide BlocksOverhead, Splittable, Has, EncodePrimary, RoomFrom, OneOrAged, AllMarshal, Fits, LastOffset;
    OverheadExactly(env, b, mtu);
    if BlocksOverhead(env, b, mtu).Some? && !Has(b.primary.flags, MUST_NOT_FRAGMENT) && b.payload.value.data != [] {
      var overhead := BlocksOverhead(env, b, mtu).value;
      LoopSucceedsExactly(env, b, mtu, overhead);
      if EncodePrimary(env, b.primary).Some? {
        RoomExactly(env, b, mtu, overhead);
      }
    }
  }
}
