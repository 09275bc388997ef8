/** Putting fragments together again: sorting, the gap check and the merge (section 5.9 of RFC 9171). */
module Reassembly {
  import opened Bytes
  import opened Endpoint
  import opened Blocks
  import opened BlockCodec
  import opened PrimaryCodec
  import opened Numbering
  import opened Fragmentation

  /** `int(n)` of a uint64. */
  function ToInt(n: uint64): int {
    if n < INT_LIMIT then n else n - TWO_TO_THE_64
  }

  /** The end of the covered bytes after a look at every fragment in turn; None if one is no fragment or leaves a gap. */
  function GapCheck(bs: seq<Bundle>, last: uint64): Option<uint64> {
    if bs == [] then Some(last)
    else if !bs[0].primary.HasFragmentation() || Offset(bs[0]) > last then None
    else GapCheck(bs[1..], End(bs[0]) % TWO_TO_THE_64)
  }

  /** The check of prepareReassembly on sorted fragments. */
  predicate Prepared(sorted: seq<Bundle>) {
    sorted != [] && GapCheck(sorted, 0) == Some(sorted[0].primary.totalDataLength)
  }

  /** The payload data from `last` on. None stands for the slice bounds panic of the original. */
  function Merge(bs: seq<Bundle>, last: int): Option<seq<byte>> {
    if bs == [] then Some([])
    else
      var start, data := ToInt(Offset(bs[0])), Data(bs[0]);
      if !(0 <= last - start <= |data|) then None
      else
        var others :- Merge(bs[1..], start + |data|);
        Some(data[last - start..] + others)
  }

  function Reassembled(first: Bundle, data: seq<byte>): Bundle
    requires |first.extensions| <= MAX_BLOCKS
  {
    Bundle(first.primary.(flags := ClearFragment(first.primary.flags), fragmentOffset := 0, totalDataLength := 0, crc := []),
           AddAll(first.extensions),
           CanonicalBlock(1, first.payload.flags, first.payload.crcType, [], PayloadBlock(data)))
  }

  function Reassemble(env: Env, sorted: seq<Bundle>): Option<Bundle>
    requires sorted != [] ==> |sorted[0].extensions| <= MAX_BLOCKS
  {
    if !Prepared(sorted) then None
    else
      var data :- Merge(sorted, 0);
      var b := Reassembled(sorted[0], data);
      if CheckBundle(env, b) then Some(b) else None
  }

  // ---------------------------------------------------------------- when the merge stays in range

  ghost predicate EndsAscend(bs: seq<Bundle>, last: int) {
    bs == [] || (last <= End(bs[0]) && EndsAscend(bs[1..], End(bs[0])))
  }

  ghost predicate InRange(bs: seq<Bundle>) {
    forall b :: b in bs ==> End(b) < INT_LIMIT
  }

  /** The gap check lets the covered end move backwards. Once it passed, the merge stays within its slices exactly if it
      never does: the ends of the sorted fragments ascend. */
  lemma {:induction false} MergeInRange(bs: seq<Bundle>, last: uint64)
    requires InRange(bs) && GapCheck(bs, last).Some?
    ensures Merge(bs, last).Some? <==> EndsAscend(bs, last)
  {
    if bs != [] {
      assert bs[0] in bs && forall b :: b in bs[1..] ==> b in bs;
      MergeInRange(bs[1..], End(bs[0]));
    }
  }

  /** The node dtn://a/. */
  const NODE := Dtn([0x61], [])

  /** A fragment of a bundle that this node made at time 1. */
  function Piece(offset: uint64, total: uint64, data: seq<byte>): Bundle {
    Bundle(PrimaryBlock(7, IS_FRAGMENT, CRC_NO, NODE, NODE, NODE, Timestamp(1, 0), 1, offset, total, []), [],
           CanonicalBlock(1, 0, CRC_NO, [], PayloadBlock(data)))
  }

  /** Until it expires it is valid. */
  lemma PieceIsValid(env: Env, offset: uint64, total: uint64, data: seq<byte>)
    ensures CheckBundle(env, Piece(offset, total, data)) <==> !env.expired(1, 1)
  {
    hide Endpoint.CheckValid;
    assert IsNameByte(0x61);
    WellFormedIsValid(NODE);
  }

  ghost predicate OffsetsAscend(bs: seq<Bundle>) {
    forall i, j :: 0 <= i < j < |bs| ==> Offset(bs[i]) <= Offset(bs[j])
  }

  /** Three valid fragments, the second of which is nested in the first, that pass the gap check; the merge runs out of
      range. */
  lemma NestedFragmentBreaksMerge(env: Env)
    ensures var bs := [Piece(0, 4, [1, 2, 3, 4]), Piece(1, 4, [2]), Piece(2, 4, [3, 4])];
            && OffsetsAscend(bs) && Prepared(bs) && Merge(bs, 0) == None
            && forall b :: b in bs ==> (CheckBundle(env, b) <==> !env.expired(1, 1))
  {
    var a, b, c := Piece(0, 4, [1, 2, 3, 4]), Piece(1, 4, [2]), Piece(2, 4, [3, 4]);
    PieceIsValid(env, 0, 4, [1, 2, 3, 4]);
    PieceIsValid(env, 1, 4, [2]);
    PieceIsValid(env, 2, 4, [3, 4]);
    hide CheckBundle;
    var bs := [a, b, c];
    assert bs[1..] == [b, c] && [b, c][1..] == [c] && [c][1..] == [];
    assert GapCheck([c], 2) == GapCheck([], 4) == Some(4);
    assert GapCheck([b, c], 4) == GapCheck([c], 2);
    assert GapCheck(bs, 0) == GapCheck([b, c], 4);
    assert Merge([b, c], 4) == None;
  }

  // ---------------------------------------------------------------- merging overlapping slices

  ghost predicate SlicesOf(bs: seq<Bundle>, payload: seq<byte>) {
    forall b :: b in bs ==> End(b) <= |payload| && Data(b) == payload[Offset(b)..End(b)]
  }

  lemma SliceStep(payload: seq<byte>, start: nat, last: nat, end: nat)
    requires start <= last <= end <= |payload|
    ensures payload[start..end][last - start..] + payload[end..] == payload[last..]
  {
  }

  lemma MergeStep(bs: seq<Bundle>, last: int)
    requires bs != []
    ensures var start, data := ToInt(Offset(bs[0])), Data(bs[0]);
            var fits := 0 <= last - start <= |data|;
            Merge(bs, last) == if fits then Resume(data[last - start..], Merge(bs[1..], start + |data|)) else None
  {
  }

  lemma MergeSlice(b: Bundle, payload: seq<byte>, last: nat)
    requires |payload| < INT_LIMIT && End(b) <= |payload| && Data(b) == payload[Offset(b)..End(b)]
    requires Offset(b) <= last <= End(b)
    ensures Resume(Data(b)[last - Offset(b)..], Some(payload[End(b)..])) == Some(payload[last..])
  {
    SliceStep(payload, Offset(b), last, End(b));
  }

  /** Overlapping slices of one payload, accepted by the gap check and with ascending ends, merge to exactly that
      payload. */
  lemma {:induction false} MergeSlices(bs: seq<Bundle>, payload: seq<byte>, last: uint64)
    requires |payload| < INT_LIMIT && last <= |payload| && SlicesOf(bs, payload)
    requires GapCheck(bs, last) == Some(|payload|) && EndsAscend(bs, last)
    ensures Merge(bs, last) == Some(payload[last..])
  {
    hide Data, Resume, Merge;
    if bs == [] {
      assert payload[last..] == [];
      NothingToMerge(last);
    } else {
      var b := bs[0];
      assert b in bs && forall x :: x in bs[1..] ==> x in bs;
      MergeSlices(bs[1..], payload, End(b));
      MergeStep(bs, last);
      MergeSlice(b, payload, last);
    }
  }

  lemma NothingToMerge(last: int)
    ensures Merge([], last) == Some([])
  {
  }

  // ---------------------------------------------------------------- a sorted collection of all fragments passes

  ghost predicate HasStart(fs: seq<Bundle>, i: int) {
    exists g :: g in fs && Offset(g) == i
  }

  /** Fragments that cover the bytes from `i` to `n`, each next one starting where another one ends. */
  ghost predicate Chain(fs: seq<Bundle>, i: int, n: int) {
    && (forall f :: f in fs ==> i <= Offset(f) < End(f) <= n && f.primary.HasFragmentation() && f.primary.totalDataLength == n)
    && (forall f, g :: f in fs && g in fs && Offset(f) <= Offset(g) ==> End(f) <= End(g))
    && (i < n ==> HasStart(fs, i))
    && (forall f :: f in fs && End(f) < n ==> HasStart(fs, End(f)))
  }

  lemma ChainCons(f: Bundle, fs: seq<Bundle>, i: int, n: int)
    requires Chain(fs, End(f), n) && i == Offset(f) < End(f) <= n
    requires f.primary.HasFragmentation() && f.primary.totalDataLength == n
    ensures Chain([f] + fs, i, n)
  {
    hide Data;
    var all := [f] + fs;
    assert f in all && forall x :: x in all <==> x == f || x in fs;
    assert HasStart(all, i);
    forall x | x in all && End(x) < n ensures HasStart(all, End(x)) {
      assert HasStart(fs, End(x));
      var g :| g in fs && Offset(g) == End(x);
      assert g in all;
    }
  }

  lemma {:induction false} PartitionIsChain(b: Bundle, fs: seq<Bundle>, i: nat)
    requires Fragmentable(b) && Partition(b, fs, i)
    ensures Chain(fs, i, |b.payload.value.data|) && SlicesOf(fs, b.payload.value.data)
  {
    if fs != [] {
      PartitionIsChain(b, fs[1..], End(fs[0]));
      ChainCons(fs[0], fs[1..], i, |b.payload.value.data|);
      assert fs == [fs[0]] + fs[1..];
    }
  }

  /** What is left of a sorted collection of all fragments once the bytes up to `last` are covered. */
  ghost predicate Remaining(bs: seq<Bundle>, fs: seq<Bundle>, last: int, n: int) {
    && OffsetsAscend(bs)
    && (forall f :: f in bs ==> f in fs && End(f) >= last)
    && (forall f :: f in fs && Offset(f) >= last ==> f in bs)
    && (last < n ==> HasStart(fs, last))
  }

  lemma FirstIsLeast(bs: seq<Bundle>, f: Bundle)
    requires OffsetsAscend(bs) && f in bs
    ensures Offset(bs[0]) <= Offset(f)
  {
  }

  lemma RemainingStep(bs: seq<Bundle>, fs: seq<Bundle>, last: int, n: int)
    requires bs != [] && Remaining(bs, fs, last, n) && Chain(fs, 0, n) && last <= n
    ensures Offset(bs[0]) <= last <= End(bs[0]) <= n && bs[0].primary.HasFragmentation()
    ensures Remaining(bs[1..], fs, End(bs[0]), n)
  {
    hide OffsetsAscend, Data;
    var b := bs[0];
    assert b in bs && bs == [b] + bs[1..];
    if last < n {
      var g :| g in fs && Offset(g) == last;
      FirstIsLeast(bs, g);
    }
    forall f | f in bs[1..] ensures f in fs && End(f) >= End(b) {
      FirstIsLeast(bs, f);
    }
    TailAscends(bs);
  }

  lemma TailAscends(bs: seq<Bundle>)
    requires bs != [] && OffsetsAscend(bs)
    ensures OffsetsAscend(bs[1..])
  {
  }

  lemma {:induction false} RemainingPass(bs: seq<Bundle>, fs: seq<Bundle>, last: uint64, n: int)
    requires Remaining(bs, fs, last, n) && Chain(fs, 0, n) && last <= n < INT_LIMIT
    ensures GapCheck(bs, last) == Some(n) && EndsAscend(bs, last)
  {
    hide Remaining, Chain;
    if bs == [] {
      NothingRemains(fs, last, n);
    } else {
      RemainingStep(bs, fs, last, n);
      RemainingPass(bs[1..], fs, End(bs[0]), n);
    }
  }

  lemma NothingRemains(fs: seq<Bundle>, last: int, n: int)
    requires Remaining([], fs, last, n) && last <= n
    ensures last == n
  {
    assert forall f :: f in fs ==> Offset(f) < last;
    assert !HasStart(fs, last);
  }

  // ---------------------------------------------------------------- fragment, then reassemble

  /** Every fragment at least once, and nothing else, in any order. */
  ghost predicate SameFragments(fs: seq<Bundle>, bs: seq<Bundle>) {
    (forall f :: f in fs ==> f in bs) && forall b :: b in bs ==> b in fs
  }

  /** The bundle up to the numbers of its extension blocks, cached checksums and the fragment fields, which only mean
      something in a fragment. */
  function Restored(b: Bundle): Bundle
    requires Fragmentable(b)
  {
    Bundle(b.primary.(fragmentOffset := 0, totalDataLength := 0, crc := []), Renumbered(b.extensions), b.payload.(crc := []))
  }

  /** The fragment that starts at byte 0 carries everything but the rest of the payload. */
  lemma FirstFragment(env: Env, b: Bundle, mtu: int, overhead: Overhead)
    requires Fragmentable(b) && CheckBundle(env, b) && !b.primary.HasFragmentation()
    requires forall cb :: cb in b.extensions ==> cb.TypeCode() != TYPE_PAYLOAD
    requires b.payload.value.data != [] && FragmentAt(env, b, mtu, overhead, 0).Some?
    ensures var f := FragmentAt(env, b, mtu, overhead, 0).value.fragment;
            |f.extensions| <= MAX_BLOCKS && Reassembled(f, b.payload.value.data) == Restored(b)
  {
    hide CheckBundle, EncodePrimary, AddAll, CrcBytes, PrimaryCovered, Renumbered;
    AddAllRenumbers(b.extensions);
    RenumberedTypes(b.extensions);
    AddAllRenumbers(Renumbered(b.extensions));
    assert b.payload.number == 1 by { PayloadNumber(env, b); }
  }

  lemma PayloadNumber(env: Env, b: Bundle)
    requires CheckBundle(env, b) && b.payload.value.PayloadBlock?
    ensures b.payload.number == 1
  {
  }

  lemma RenumberedTypes(cbs: seq<CanonicalBlock>)
    requires |cbs| <= MAX_BLOCKS && forall cb :: cb in cbs ==> cb.TypeCode() != TYPE_PAYLOAD
    ensures forall cb :: cb in Renumbered(cbs) ==> cb.TypeCode() != TYPE_PAYLOAD
    ensures Renumbered(Renumbered(cbs)) == Renumbered(cbs)
  {
    forall i | 0 <= i < |cbs| ensures Renumbered(cbs)[i].TypeCode() != TYPE_PAYLOAD {
      assert cbs[i] in cbs;
    }
  }

  /** Renumbering keeps a bundle valid. */
  lemma RestoredIsValid(env: Env, b: Bundle)
    requires Fragmentable(b) && CheckBundle(env, b)
    requires forall cb :: cb in b.extensions ==> cb.TypeCode() != TYPE_PAYLOAD
    ensures CheckBundle(env, Restored(b))
  {
    hide ContextValid, OfType;
    var r := Restored(b);
    TimeSameValues(env, b, r);
    RenumberedTypes(b.extensions);
    forall i | 0 <= i < |r.extensions| ensures r.extensions[i].TypeCode() != TYPE_PAYLOAD {
      assert r.extensions[i] in r.extensions;
    }
    ExtensionsSameValues(b.extensions, r.extensions);
  }

  // ---------------------------------------------------------------- the theorem

  /** The first of any sorted collection of the fragments is the fragment at byte 0. */
  lemma FirstOfSorted(fs: seq<Bundle>, sorted: seq<Bundle>, n: int)
    requires fs != [] && Chain(fs, 0, n) && Offset(fs[0]) == 0 && OffsetsAscend(sorted) && SameFragments(fs, sorted)
    requires forall f :: f in fs[1..] ==> Offset(f) > 0
    ensures sorted != [] && sorted[0] == fs[0]
  {
    assert fs[0] in fs && fs[0] in sorted;
    FirstIsLeast(sorted, fs[0]);
    assert sorted[0] in fs;
    assert fs == [fs[0]] + fs[1..];
  }

  lemma LaterOffsets(b: Bundle, fs: seq<Bundle>)
    requires Fragmentable(b) && Partition(b, fs, 0) && fs != []
    ensures forall f :: f in fs[1..] ==> Offset(f) > 0
  {
    PartitionIsChain(b, fs[1..], End(fs[0]));
  }

  lemma SortedFragmentsPass(b: Bundle, fs: seq<Bundle>, sorted: seq<Bundle>)
    requires Fragmentable(b) && Partition(b, fs, 0) && fs != [] && OffsetsAscend(sorted) && SameFragments(fs, sorted)
    ensures sorted != [] && sorted[0] == fs[0] && Prepared(sorted) && Merge(sorted, 0) == Some(b.payload.value.data)
  {
    hide GapCheck, Merge, Chain, Partition, OffsetsAscend, EndsAscend;
    var data := b.payload.value.data;
    PartitionIsChain(b, fs, 0);
    LaterOffsets(b, fs);
    assert Offset(fs[0]) == 0 && fs[0].primary.totalDataLength == |data| by { PartitionHead(b, fs); }
    FirstOfSorted(fs, sorted, |data|);
    AllRemain(fs, sorted, |data|);
    RemainingPass(sorted, fs, 0, |data|);
    MergeSlices(sorted, data, 0);
    assert data[0..] == data;
  }

  lemma PartitionHead(b: Bundle, fs: seq<Bundle>)
    requires Fragmentable(b) && Partition(b, fs, 0) && fs != []
    ensures Offset(fs[0]) == 0 && fs[0].primary.totalDataLength == |b.payload.value.data|
  {
  }

  lemma AllRemain(fs: seq<Bundle>, sorted: seq<Bundle>, n: int)
    requires Chain(fs, 0, n) && OffsetsAscend(sorted) && SameFragments(fs, sorted)
    ensures Remaining(sorted, fs, 0, n)
  {
    hide OffsetsAscend;
  }

  lemma TwoOrMore(env: Env, b: Bundle, mtu: int, sorted: seq<Bundle>)
    requires Fragmentable(b) && CheckBundle(env, b) && !b.primary.HasFragmentation()
    requires forall cb :: cb in b.extensions ==> cb.TypeCode() != TYPE_PAYLOAD
    requires -INT_LIMIT <= mtu < INT_LIMIT && Fragments(env, b, mtu).Some? && |Fragments(env, b, mtu).value| >= 2
    requires OffsetsAscend(sorted) && SameFragments(Fragments(env, b, mtu).value, sorted)
    ensures sorted != [] && |sorted[0].extensions| <= MAX_BLOCKS
    ensures Reassemble(env, sorted) == Some(Restored(b))
  {
    hide CheckBundle, FragmentAt, BlocksOverhead, Partition, OffsetsAscend, Prepared, Merge, Reassembled, Restored, SameFragments;
    var overhead := BlocksOverhead(env, b, mtu).value;
    var fs := Fragments(env, b, mtu).value;
    assert fs == FragmentsFrom(env, b, mtu, overhead, 0).value;
    FragmentsPartition(env, b, mtu, overhead, 0);
    SortedFragmentsPass(b, fs, sorted);
    FirstFragment(env, b, mtu, overhead);
    RestoredIsValid(env, b);
  }

  /** A bundle that was split comes back from its fragments, whatever their order and however often each of them arrived:
      all that may differ are the numbers of its extension blocks and cached checksums. It does so exactly if it was split
      into two or more; an unsplit bundle is no fragment, and no fragments are nothing to reassemble. */
  lemma FragmentThenReassemble(env: Env, b: Bundle, mtu: int, sorted: seq<Bundle>)
    requires Fragmentable(b) && CheckBundle(env, b) && !b.primary.HasFragmentation()
    requires forall cb :: cb in b.extensions ==> cb.TypeCode() != TYPE_PAYLOAD
    requires -INT_LIMIT <= mtu < INT_LIMIT && Fragments(env, b, mtu).Some?
    requires OffsetsAscend(sorted) && SameFragments(Fragments(env, b, mtu).value, sorted)
    ensures sorted != [] ==> |sorted[0].extensions| <= MAX_BLOCKS
    ensures Reassemble(env, sorted) == if |Fragments(env, b, mtu).value| >= 2 then Some(Restored(b)) else None
  {
    hide CheckBundle, Fragments, OffsetsAscend, Merge, Reassembled, Restored;
    var fs := Fragments(env, b, mtu).value;
    if |fs| >= 2 {
      TwoOrMore(env, b, mtu, sorted);
    } else if sorted != [] {
      assert sorted[0] in fs;
      assert fs == [b] by { UnsplitIsReturned(env, b, mtu); }
    }
  }

  lemma UnsplitIsReturned(env: Env, b: Bundle, mtu: int)
    requires Fragmentable(b) && -INT_LIMIT <= mtu < INT_LIMIT && Fragments(env, b, mtu).Some?
    ensures |Fragments(env, b, mtu).value| == 1 ==> Fragments(env, b, mtu).value == [b]
  {
    hide BlocksOverhead, FragmentsFrom;
  }

  // ---------------------------------------------------------------- an incomplete collection is refused

  /** The byte at `k` of a payload comes from one of these fragments. */
  ghost predicate TakenFrom(bs: seq<Bundle>, k: nat, x: byte) {
    exists f :: f in bs && f.primary.HasFragmentation() && HoldsAt(f, k, x)
  }

  ghost predicate HoldsAt(f: Bundle, k: nat, x: byte) {
    Offset(f) <= k < End(f) && Data(f)[k - Offset(f)] == x
  }

  ghost predicate AllTaken(bs: seq<Bundle>, start: nat, data: seq<byte>) {
    forall k :: 0 <= k < |data| ==> TakenFrom(bs, start + k, data[k])
  }

  /** Slices of Go, which are shorter than 2^63 bytes. */
  ghost predicate GoSlices(bs: seq<Bundle>) {
    forall f :: f in bs ==> |Data(f)| < INT_LIMIT
  }

  lemma {:induction false} MergeIsCovered(bs: seq<Bundle>, last: uint64)
    requires GoSlices(bs) && GapCheck(bs, last).Some? && Merge(bs, last).Some?
    ensures var data := Merge(bs, last).value;
            last + |data| == GapCheck(bs, last).value && AllTaken(bs, last, data)
  {
    hide Data, Merge, TakenFrom;
    if bs == [] {
      NothingToMerge(last);
    } else {
      var b := bs[0];
      assert b in bs && forall f :: f in bs[1..] ==> f in bs;
      MergeStep(bs, last);
      assert ToInt(Offset(b)) == Offset(b) && End(b) < TWO_TO_THE_64;
      MergeIsCovered(bs[1..], End(b));
      var data, others := Merge(bs, last).value, Merge(bs[1..], End(b)).value;
      var own := Data(b)[last - Offset(b)..];
      assert data == own + others;
      forall k | 0 <= k < |data| ensures TakenFrom(bs, last + k, data[k]) {
        if k < |own| {
          TakenFromFirst(bs, last + k, data[k]);
        } else {
          assert TakenFrom(bs[1..], End(b) + (k - |own|), others[k - |own|]);
          TakenFromLater(bs, last + k, data[k]);
        }
      }
    }
  }

  lemma TakenFromFirst(bs: seq<Bundle>, k: nat, x: byte)
    requires bs != [] && bs[0].primary.HasFragmentation() && HoldsAt(bs[0], k, x)
    ensures TakenFrom(bs, k, x)
  {
    assert bs[0] in bs;
  }

  lemma TakenFromLater(bs: seq<Bundle>, k: nat, x: byte)
    requires bs != [] && TakenFrom(bs[1..], k, x)
    ensures TakenFrom(bs, k, x)
  {
    hide HoldsAt;
    var f :| f in bs[1..] && f.primary.HasFragmentation() && HoldsAt(f, k, x);
    assert f in bs;
  }

  /** Whatever is reassembled, from any collection at all, is valid, as long as was announced, and each of its bytes stands at its
      place in one of the fragments. */
  lemma ReassembledIsComplete(env: Env, sorted: seq<Bundle>)
    requires GoSlices(sorted) && (sorted != [] ==> |sorted[0].extensions| <= MAX_BLOCKS)
    requires Reassemble(env, sorted).Some?
    ensures var payload := Reassemble(env, sorted).value.payload.value;
            && sorted != [] && CheckBundle(env, Reassemble(env, sorted).value)
            && payload.PayloadBlock? && |payload.data| == sorted[0].primary.totalDataLength
            && forall k :: 0 <= k < |payload.data| ==> TakenFrom(sorted, k, payload.data[k])
  {
    hide GapCheck, Merge, TakenFrom, CheckBundle, AddAll, GoSlices;
    MergeIsCovered(sorted, 0);
    var data := Merge(sorted, 0).value;
    assert forall k :: 0 <= k < |data| ==> TakenFrom(sorted, 0 + k, data[k]);
  }

  lemma PartitionTail(b: Bundle, fs: seq<Bundle>, i: nat)
    requires Fragmentable(b) && Partition(b, fs, i) && fs != []
    ensures Offset(fs[0]) == i < End(fs[0]) && Partition(b, fs[1..], End(fs[0]))
    ensures forall f :: f in fs[1..] ==> Offset(f) >= End(fs[0]) && End(f) > Offset(f)
  {
    PartitionIsChain(b, fs[1..], End(fs[0]));
  }

  /** Fragments of one bundle do not overlap. */
  lemma {:induction false} FragmentsAreDisjoint(b: Bundle, fs: seq<Bundle>, i: nat, f: Bundle, g: Bundle)
    requires Fragmentable(b) && Partition(b, fs, i) && f in fs && g in fs
    requires Offset(g) <= Offset(f) < End(g)
    ensures f == g
  {
    hide Partition, End, Offset;
    PartitionTail(b, fs, i);
    assert fs == [fs[0]] + fs[1..];
    if f in fs[1..] && g in fs[1..] {
      FragmentsAreDisjoint(b, fs[1..], End(fs[0]), f, g);
    }
  }

  lemma FragmentHasRoom(env: Env, b: Bundle, mtu: int, overhead: Overhead, i: nat)
    requires Fragmentable(b) && i < |b.payload.value.data| && FragmentAt(env, b, mtu, overhead, i).Some?
    ensures |FragmentAt(env, b, mtu, overhead, i).value.fragment.extensions| <= MAX_BLOCKS
  {
    hide CheckBundle, EncodePrimary, AddAll, Kept, PrimaryCovered, CrcBytes;
  }

  lemma {:induction false} FragmentsHaveRoom(env: Env, b: Bundle, mtu: int, overhead: Overhead, i: nat)
    requires Fragmentable(b) && FragmentsFrom(env, b, mtu, overhead, i).Some?
    ensures forall f :: f in FragmentsFrom(env, b, mtu, overhead, i).value ==> |f.extensions| <= MAX_BLOCKS
    decreases |b.payload.value.data| - i
  {
    hide FragmentAt;
    if i < |b.payload.value.data| {
      FragmentHasRoom(env, b, mtu, overhead, i);
      FragmentsHaveRoom(env, b, mtu, overhead, i + FragmentAt(env, b, mtu, overhead, i).value.room);
    }
  }

  /** Without one of the fragments of a bundle the others, in any order and however often each is there, are not put
      together. */
  lemma MissingFragmentIsNoticed(env: Env, b: Bundle, mtu: int, sorted: seq<Bundle>, missing: Bundle)
    requires Fragmentable(b) && -INT_LIMIT <= mtu < INT_LIMIT && Fragments(env, b, mtu).Some?
    requires forall f :: f in sorted ==> f in Fragments(env, b, mtu).value
    requires missing in Fragments(env, b, mtu).value && missing !in sorted
    ensures sorted != [] ==> |sorted[0].extensions| <= MAX_BLOCKS
    ensures Reassemble(env, sorted) == None
  {
    hide FragmentsFrom, BlocksOverhead, Partition, CheckBundle, Reassemble, GoSlices;
    var fs := Fragments(env, b, mtu).value;
    if sorted == [] {
      NothingToReassemble(env);
    } else {
      assert sorted[0] in fs;
      assert |fs| != 1;
      var overhead := BlocksOverhead(env, b, mtu).value;
      assert fs == FragmentsFrom(env, b, mtu, overhead, 0).value;
      FragmentsPartition(env, b, mtu, overhead, 0);
      FragmentsHaveRoom(env, b, mtu, overhead, 0);
      SomeMissing(env, b, fs, sorted, missing);
    }
  }

  lemma NothingToReassemble(env: Env)
    ensures Reassemble(env, []) == None
  {
  }

  lemma SomeMissing(env: Env, b: Bundle, fs: seq<Bundle>, sorted: seq<Bundle>, missing: Bundle)
    requires Fragmentable(b) && Partition(b, fs, 0) && missing in fs && missing !in sorted
    requires sorted != [] && (forall f :: f in sorted ==> f in fs) && |sorted[0].extensions| <= MAX_BLOCKS
    ensures Reassemble(env, sorted) == None
  {
    hide Partition, Reassemble, Data;
    PartitionIsChain(b, fs, 0);
    if Reassemble(env, sorted).Some? {
      ReassembledIsComplete(env, sorted);
      var data := Reassemble(env, sorted).value.payload.value.data;
      assert sorted[0] in sorted;
      var k := Offset(missing);
      assert TakenFrom(sorted, k, data[k]);
      var f :| f in sorted && f.primary.HasFragmentation() && HoldsAt(f, k, data[k]);
      FragmentsAreDisjoint(b, fs, 0, missing, f);
    }
  }
}
