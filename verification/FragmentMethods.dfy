/** Fragment and ReassembleFragments as the program runs them, step by step, against the functions that specify them. */
module FragmentMethods {
  import opened Bytes
  import opened Cbor
  import opened Streams
  import opened Blocks
  import opened BlockCodec
  import opened PrimaryCodec
  import opened BlockStreams
  import opened Bundles
  import opened Sorting
  import opened Numbering
  import opened Fragmentation
  import opened Reassembly

  // ---------------------------------------------------------------- splitting

  lemma {:induction false} OverheadPrefixFails(env: Env, blocks: seq<CanonicalBlock>, i: nat, mtu: int)
    requires -INT_LIMIT <= mtu < INT_LIMIT && i <= |blocks|
    requires ExtensionsOverhead(env, blocks[..i], mtu) == None
    ensures ExtensionsOverhead(env, blocks, mtu) == None
  {
    hide EstimatedLength;
    if i == |blocks| {
      assert blocks[..i] == blocks;
    } else {
      assert blocks[..|blocks| - 1][..i] == blocks[..i];
      OverheadPrefixFails(env, blocks[..|blocks| - 1], i, mtu);
    }
  }

  lemma OverheadStep(env: Env, blocks: seq<CanonicalBlock>, i: nat, mtu: int)
    requires -INT_LIMIT <= mtu < INT_LIMIT && i < |blocks| && ExtensionsOverhead(env, blocks[..i], mtu).Some?
    ensures var before := ExtensionsOverhead(env, blocks[..i], mtu).value;
            var length := EstimatedLength(env, blocks[i]);
            var after := if length.Some? then Some(AddOverhead(before, blocks[i], length.value, mtu)) else None;
            ExtensionsOverhead(env, blocks[..i + 1], mtu) == after
  {
    hide EstimatedLength, AddOverhead;
    assert blocks[..i + 1][..i] == blocks[..i];
  }

  lemma NoOverhead(env: Env, blocks: seq<CanonicalBlock>, mtu: int)
    requires -INT_LIMIT <= mtu < INT_LIMIT
    ensures ExtensionsOverhead(env, blocks[..0], mtu) == Some(Overhead(0, 0))
  {
  }

  /** Write the head of a byte string of mtu bytes; its first byte is already part of an empty string. */
  method WriteLengthField(mtu: int, buff: Writer)
    requires -INT_LIMIT <= mtu < INT_LIMIT
    modifies buff
    ensures |buff.data| - 1 == LengthGrowth(mtu) && buff.copying == old(buff.copying)
  {
    buff.Reset();
    buff.Write(Head(MAJOR_BYTES, Unsigned(mtu)));
  }

  method FragmentExtensionBlocksLen(env: Env, b: Bundle, mtu: int) returns (overhead: Option<Overhead>)
    requires -INT_LIMIT <= mtu < INT_LIMIT
    ensures overhead == BlocksOverhead(env, b, mtu)
  {
    hide EncodeCanonical, LengthGrowth, ExtensionsOverhead;
    var first: nat, others: nat := 0, 0;
    NoOverhead(env, b.extensions, mtu);
    var buff := new Writer();
    for i := 0 to |b.extensions|
      invariant fresh(buff) && !buff.copying && buff.data == []
      invariant ExtensionsOverhead(env, b.extensions[..i], mtu) == Some(Overhead(first, others))
    {
      OverheadStep(env, b.extensions, i, mtu);
      var eb := Estimated(b.extensions[i]);
      var ok, _ := MarshalCanonical(env, eb, buff);
      if !ok {
        OverheadPrefixFails(env, b.extensions, i + 1, mtu);
        return None;
      }
      var length := |buff.data|;
      first := first + length;
      if Has(eb.flags, REPLICATE_BLOCK) {
        others := others + length;
      }
      if eb.TypeCode() == TYPE_PAYLOAD {
        WriteLengthField(mtu, buff);
        first := first + |buff.data| - 1;
        others := others + length + |buff.data| - 1;
      }
      buff.Reset();
    }
    assert b.extensions[..|b.extensions|] == b.extensions;
    var ok, _ := MarshalCanonical(env, PayloadStub(b), buff);
    if !ok {
      return None;
    }
    var length := |buff.data|;
    WriteLengthField(mtu, buff);
    return Some(Overhead(first + length + |buff.data| - 1, others + length + |buff.data| - 1));
  }

  /** A fragment's primary block and its length. */
  method FragmentPrimaryBlock(env: Env, pb: PrimaryBlock, offset: uint64, total: uint64)
    returns (ok: bool, fragment: PrimaryBlock, length: nat)
    ensures var p := FragmentPrimary(pb, offset, total);
            var encoded := EncodePrimary(env, p);
            ok == encoded.Some? && (ok ==> fragment == StampedPrimary(env, p) && length == |encoded.value|)
  {
    hide EncodePrimary, StampedPrimary;
    fragment := FragmentPrimary(pb, offset, total);
    var buff := new Writer();
    ok, fragment := MarshalPrimary(env, fragment, buff);
    length := |buff.data|;
  }

  lemma KeptStep(blocks: seq<CanonicalBlock>, i: nat, first: bool)
    requires i < |blocks| && |blocks| <= MAX_BLOCKS
    ensures var before := Kept(blocks[..i], first);
            var keep := first || Has(blocks[i].flags, REPLICATE_BLOCK);
            AddAll(Kept(blocks[..i + 1], first)) == if keep then AddBlock(AddAll(before), blocks[i]) else AddAll(before)
  {
    hide AddBlock;
    assert blocks[..i + 1][..i] == blocks[..i];
    var before := Kept(blocks[..i], first);
    assert (before + [blocks[i]])[..|before|] == before;
    assert before + [] == before;
  }

  method KeepExtensions(fragment: MutableBundle, blocks: seq<CanonicalBlock>, i: nat)
    requires fragment.extensions == [] && |blocks| <= MAX_BLOCKS
    modifies fragment`extensions
    ensures fragment.extensions == AddAll(Kept(blocks, i == 0))
  {
    hide AddAll, AddBlock, Kept;
    NothingKept(i == 0);
    for j := 0 to |blocks|
      invariant fragment.extensions == AddAll(Kept(blocks[..j], i == 0))
    {
      KeptStep(blocks, j, i == 0);
      if i > 0 && !Has(blocks[j].flags, REPLICATE_BLOCK) {
        continue;
      }
      fragment.AddExtensionBlock(blocks[j]);
    }
    assert blocks[..|blocks|] == blocks;
  }

  lemma NothingKept(first: bool)
    ensures Kept([], first) == [] && AddAll([]) == []
  {
  }

  /** The fragment that starts at byte i. */
  method BuildFragment(env: Env, b: Bundle, mtu: int, overhead: Overhead, i: nat) returns (p: Option<Piece>)
    requires Fragmentable(b) && i < |b.payload.value.data|
    ensures p == FragmentAt(env, b, mtu, overhead, i)
  {
    hide EncodePrimary, StampedPrimary, AddAll, AddBlock, Kept, CheckBundle, FragmentPrimary, FragmentPayload;
    var n := |b.payload.value.data|;
    var ok, primary, length := FragmentPrimaryBlock(env, b.primary, i, n);
    if !ok {
      return None;
    }
    var used := 2 + length;
    if i == 0 {
      used := used + overhead.first;
    } else {
      used := used + overhead.others;
    }
    if used >= mtu {
      return None;
    }
    var fragment := new MutableBundle(primary, [], None);
    KeepExtensions(fragment, b.extensions, i);
    var room := mtu - used;
    var end := if i + room < n then i + room else n;
    fragment.payload := Some(FragmentPayload(b, i, end));
    if !CheckBundle(env, fragment.Value()) {
      return None;
    }
    return Some(Fragmentation.Piece(fragment.Value(), room));
  }

  method Fragment(env: Env, b: Bundle, mtu: int) returns (bs: Option<seq<Bundle>>)
    requires Fragmentable(b) && -INT_LIMIT <= mtu < INT_LIMIT
    ensures bs == Fragments(env, b, mtu)
  {
    hide FragmentAt, BlocksOverhead, Resume;
    if Has(b.primary.flags, MUST_NOT_FRAGMENT) {
      return None;
    }
    var overhead :- FragmentExtensionBlocksLen(env, b, mtu);
    var got, i := [], 0;
    ghost var all := FragmentsFrom(env, b, mtu, overhead, 0);
    ResumeNothing(all);
    while i < |b.payload.value.data|
      invariant all == Resume(got, FragmentsFrom(env, b, mtu, overhead, i))
    {
      var piece := BuildFragment(env, b, mtu, overhead, i);
      ResumeEnd(got);
      if piece.None? {
        return None;
      }
      FragmentsStep(env, b, mtu, overhead, i);
      ResumeTwice(got, [piece.value.fragment], FragmentsFrom(env, b, mtu, overhead, i + piece.value.room));
      got := got + [piece.value.fragment];
      i := i + piece.value.room;
    }
    ResumeEnd(got);
    return Some(if |got| == 1 then [b] else got);
  }

  lemma FragmentsStep(env: Env, b: Bundle, mtu: int, overhead: Overhead, i: nat)
    requires Fragmentable(b) && i < |b.payload.value.data| && FragmentAt(env, b, mtu, overhead, i).Some?
    ensures var piece := FragmentAt(env, b, mtu, overhead, i).value;
            var others := FragmentsFrom(env, b, mtu, overhead, i + piece.room);
            FragmentsFrom(env, b, mtu, overhead, i) == Resume([piece.fragment], others)
  {
    hide FragmentAt;
  }

  // ---------------------------------------------------------------- putting together

  function OffsetKey(b: Bundle): int {
    Offset(b)
  }

  /** sort.Slice by fragment offset: some ascending permutation. */
  method SortByOffset(bs: array<Bundle>)
    modifies bs
    ensures multiset(bs[..]) == multiset(old(bs[..])) && OffsetsAscend(bs[..])
  {
    hide SortBy;
    var sorted := SortBy(OffsetKey, bs[..]);
    SortPermutes(OffsetKey, bs[..]);
    SortSorts(OffsetKey, bs[..]);
    forall i | 0 <= i < bs.Length {
      bs[i] := sorted[i];
    }
    assert bs[..] == sorted;
    assert forall i :: 0 <= i < |sorted| ==> OffsetKey(sorted[i]) == Offset(sorted[i]);
  }

  /** Sort the fragments in place, then look for gaps. */
  method PrepareReassembly(bs: array<Bundle>) returns (ok: bool)
    modifies bs
    ensures multiset(bs[..]) == multiset(old(bs[..])) && OffsetsAscend(bs[..])
    ensures ok <==> Prepared(bs[..])
  {
    hide OffsetsAscend;
    SortByOffset(bs);
    if bs.Length == 0 {
      return false;
    }
    var last: uint64 := 0;
    for i := 0 to bs.Length
      invariant GapCheck(bs[..], 0) == GapCheck(bs[i..], last)
    {
      assert bs[i..][1..] == bs[i + 1..];
      if !bs[i].primary.HasFragmentation() || Offset(bs[i]) > last {
        return false;
      }
      last := End(bs[i]) % TWO_TO_THE_64;
    }
    return last == bs[0].primary.totalDataLength;
  }

  /** None stands for a slice bounds panic. */
  method MergeFragmentPayload(bs: array<Bundle>) returns (data: Option<seq<byte>>)
    ensures data == Merge(bs[..], 0)
  {
    hide Resume, Data, Offset;
    var got, last := [], 0;
    assert bs[0..] == bs[..];
    ResumeNothing(Merge(bs[..], 0));
    for i := 0 to bs.Length
      invariant Merge(bs[..], 0) == Resume(got, Merge(bs[i..], last))
    {
      assert bs[i..][1..] == bs[i + 1..];
      MergeStep(bs[i..], last);
      ResumeEnd(got);
      var start, piece := ToInt(Offset(bs[i])), Data(bs[i]);
      if !(0 <= last - start <= |piece|) {
        return None;
      }
      ResumeTwice(got, piece[last - start..], Merge(bs[i + 1..], start + |piece|));
      got := got + piece[last - start..];
      last := start + |piece|;
    }
    ResumeEnd(got);
    return Some(got);
  }

  method ReassembleFragments(env: Env, bs: array<Bundle>) returns (b: Option<Bundle>)
    requires forall i :: 0 <= i < bs.Length ==> |bs[i].extensions| <= MAX_BLOCKS
    modifies bs
    ensures multiset(bs[..]) == multiset(old(bs[..])) && OffsetsAscend(bs[..])
    ensures bs.Length > 0 ==> |bs[0].extensions| <= MAX_BLOCKS
    ensures b == Reassemble(env, bs[..])
  {
    hide OffsetsAscend, Merge, AddAll, AddBlock, CheckBundle, ToInt, GapCheck;
    ghost var before := bs[..];
    var ok := PrepareReassembly(bs);
    SameElements(before, bs[..]);
    assert forall i :: 0 <= i < bs.Length ==> bs[..][i] in before;
    if !ok {
      return None;
    }
    var first := bs[0];
    var whole := new MutableBundle(
      first.primary.(flags := ClearFragment(first.primary.flags), fragmentOffset := 0, totalDataLength := 0, crc := []),
      [], None);
    ghost var primary := whole.primary;
    ghost var sorted := bs[..];
    AddNothing();
    for i := 0 to |first.extensions|
      invariant bs[..] == sorted
      invariant fresh(whole) && whole.primary == primary && whole.extensions == AddAll(first.extensions[..i])
    {
      AddAllStep(first.extensions, i);
      whole.AddExtensionBlock(first.extensions[i]);
    }
    assert first.extensions[..|first.extensions|] == first.extensions;
    var data :- MergeFragmentPayload(bs);
    whole.payload := Some(CanonicalBlock(1, first.payload.flags, first.payload.crcType, [], PayloadBlock(data)));
    return if CheckBundle(env, whole.Value()) then Some(whole.Value()) else None;
  }

  lemma AddNothing()
    ensures AddAll([]) == []
  {
  }

  lemma AddAllStep(cbs: seq<CanonicalBlock>, i: nat)
    requires i < |cbs| && |cbs| <= MAX_BLOCKS
    ensures AddAll(cbs[..i + 1]) == AddBlock(AddAll(cbs[..i]), cbs[i])
  {
    hide AddBlock;
    assert cbs[..i + 1][..i] == cbs[..i];
  }
}
