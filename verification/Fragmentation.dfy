/** Splitting a bundle into fragments, as bundle.Fragment does (section 5.8 of RFC 9171). */
module Fragmentation {
  import opened Bytes
  import opened Cbor
  import opened Blocks
  import opened BlockCodec
  import opened PrimaryCodec
  import opened BlockStreams
  import opened Numbering

  /** Bounds of Go's int on a 64-bit machine. */
  const INT_LIMIT := 0x8000_0000_0000_0000

  function SetFragment(flags: uint64): uint64 {
    if Has(flags, IS_FRAGMENT) then flags else flags + 1
  }

  function ClearFragment(flags: uint64): uint64 {
    flags - flags % 2
  }

  /** `uint64(n)` of an int. */
  function Unsigned(n: int): uint64
    requires -INT_LIMIT <= n < INT_LIMIT
  {
    if n < 0 then n + TWO_TO_THE_64 else n
  }

  function FragmentPrimary(pb: PrimaryBlock, offset: uint64, total: uint64): PrimaryBlock {
    pb.(flags := SetFragment(pb.flags), fragmentOffset := offset, totalDataLength := total, crc := [])
  }

  // ---------------------------------------------------------------- the overhead estimate

  /** A block as its length is estimated: with the longest checksum, and without data if it is a payload block. */
  function Estimated(cb: CanonicalBlock): CanonicalBlock {
    if cb.TypeCode() == TYPE_PAYLOAD then CanonicalBlock(cb.number, cb.flags, CRC_32, [], PayloadBlock([]))
    else cb.(crcType := CRC_32)
  }

  function EstimatedLength(env: Env, cb: CanonicalBlock): Option<nat> {
    var s :- EncodeCanonical(env, Estimated(cb));
    Some(|s|)
  }

  /** The growth of the length field of a payload of at most mtu bytes. */
  function LengthGrowth(mtu: int): nat
    requires -INT_LIMIT <= mtu < INT_LIMIT
  {
    HeadLength(Unsigned(mtu)) - 1
  }

  /** Overhead of the extension blocks and the payload block in the first and in the other fragments. */
  datatype Overhead = Overhead(first: nat, others: nat)

  function ExtensionsOverhead(env: Env, blocks: seq<CanonicalBlock>, mtu: int): Option<Overhead>
    requires -INT_LIMIT <= mtu < INT_LIMIT
  {
    if blocks == [] then Some(Overhead(0, 0))
    else
      var n := |blocks| - 1;
      var before :- ExtensionsOverhead(env, blocks[..n], mtu);
      var length :- EstimatedLength(env, blocks[n]);
      Some(AddOverhead(before, blocks[n], length, mtu))
  }

  function AddOverhead(before: Overhead, cb: CanonicalBlock, length: nat, mtu: int): Overhead
    requires -INT_LIMIT <= mtu < INT_LIMIT
  {
    var replicated := if Has(cb.flags, REPLICATE_BLOCK) then length else 0;
    if cb.TypeCode() == TYPE_PAYLOAD
    then Overhead(before.first + length + LengthGrowth(mtu), before.others + replicated + length + LengthGrowth(mtu))
    else Overhead(before.first + length, before.others + replicated)
  }

  function PayloadStub(b: Bundle): CanonicalBlock {
    CanonicalBlock(1, b.payload.flags, CRC_32, [], PayloadBlock([]))
  }

  function BlocksOverhead(env: Env, b: Bundle, mtu: int): Option<Overhead>
    requires -INT_LIMIT <= mtu < INT_LIMIT
  {
    var exts :- ExtensionsOverhead(env, b.extensions, mtu);
    var stub :- EncodeCanonical(env, PayloadStub(b));
    var payload := |stub| + LengthGrowth(mtu);
    Some(Overhead(exts.first + payload, exts.others + payload))
  }

  // ---------------------------------------------------------------- the fragments

  /** The first fragment gets all extension blocks, the others those that must be replicated. */
  function Kept(blocks: seq<CanonicalBlock>, first: bool): (r: seq<CanonicalBlock>)
    ensures |r| <= |blocks|
    ensures forall cb :: cb in r ==> cb in blocks
    ensures first ==> r == blocks
  {
    if blocks == [] then []
    else
      var n := |blocks| - 1;
      assert blocks == blocks[..n] + [blocks[n]];
      Kept(blocks[..n], first) + if first || Has(blocks[n].flags, REPLICATE_BLOCK) then [blocks[n]] else []
  }

  predicate Fragmentable(b: Bundle) {
    b.payload.value.PayloadBlock? && |b.payload.value.data| < INT_LIMIT && |b.extensions| <= MAX_BLOCKS
  }

  /** One fragment, and the payload bytes there was room for. */
  datatype Piece = Piece(fragment: Bundle, room: nat)

  function FragmentPayload(b: Bundle, i: nat, end: nat): CanonicalBlock
    requires Fragmentable(b) && i <= end <= |b.payload.value.data|
  {
    CanonicalBlock(1, b.payload.flags, b.payload.crcType, [], PayloadBlock(b.payload.value.data[i..end]))
  }

  function FragmentAt(env: Env, b: Bundle, mtu: int, overhead: Overhead, i: nat): (p: Option<Piece>)
    requires Fragmentable(b) && i < |b.payload.value.data|
    ensures p.Some? ==> p.value.room > 0
  {
    var n := |b.payload.value.data|;
    var primary := FragmentPrimary(b.primary, i, n);
    var encoded :- EncodePrimary(env, primary);
    var used := 2 + |encoded| + if i == 0 then overhead.first else overhead.others;
    if used >= mtu then None
    else
      var room := mtu - used;
      var end := if i + room < n then i + room else n;
      var fragment := Bundle(StampedPrimary(env, primary), AddAll(Kept(b.extensions, i == 0)), FragmentPayload(b, i, end));
      if CheckBundle(env, fragment) then Some(Piece(fragment, room)) else None
  }

  function FragmentsFrom(env: Env, b: Bundle, mtu: int, overhead: Overhead, i: nat): Option<seq<Bundle>>
    requires Fragmentable(b)
    decreases |b.payload.value.data| - i
  {
    if i >= |b.payload.value.data| then Some([])
    else
      var piece :- FragmentAt(env, b, mtu, overhead, i);
      var others :- FragmentsFrom(env, b, mtu, overhead, i + piece.room);
      Some([piece.fragment] + others)
  }

  function Fragments(env: Env, b: Bundle, mtu: int): Option<seq<Bundle>>
    requires Fragmentable(b) && -INT_LIMIT <= mtu < INT_LIMIT
  {
    if Has(b.primary.flags, MUST_NOT_FRAGMENT) then None
    else
      var overhead :- BlocksOverhead(env, b, mtu);
      var bs :- FragmentsFrom(env, b, mtu, overhead, 0);
      Some(if |bs| == 1 then [b] else bs)
  }

  // ---------------------------------------------------------------- partition of the payload

  function Offset(b: Bundle): uint64 {
    b.primary.fragmentOffset
  }

  function Data(b: Bundle): seq<byte> {
    if b.payload.value.PayloadBlock? then b.payload.value.data else []
  }

  function End(b: Bundle): int {
    Offset(b) + |Data(b)|
  }

  /** Non-empty consecutive slices of the payload from byte `i` to its end, each marked with its offset and the total. */
  ghost predicate Partition(b: Bundle, bs: seq<Bundle>, i: nat)
    requires Fragmentable(b)
  {
    var data := b.payload.value.data;
    if bs == [] then i == |data|
    else
      var f := bs[0];
      && i < End(f) <= |data| && Offset(f) == i && f.primary.HasFragmentation()
      && f.primary.totalDataLength == |data| && f.payload.value == PayloadBlock(data[i..End(f)])
      && Partition(b, bs[1..], End(f))
  }

  lemma IsFragmentPrimary(pb: PrimaryBlock, offset: uint64, total: uint64, crc: seq<byte>)
    ensures FragmentPrimary(pb, offset, total).(crc := crc).HasFragmentation()
  {
  }

  lemma FragmentShape(env: Env, b: Bundle, mtu: int, overhead: Overhead, i: nat)
    requires Fragmentable(b) && i < |b.payload.value.data| && FragmentAt(env, b, mtu, overhead, i).Some?
    ensures var n := |b.payload.value.data|;
            var piece := FragmentAt(env, b, mtu, overhead, i).value;
            var f := piece.fragment;
            && Offset(f) == i && f.primary.HasFragmentation() && f.primary.totalDataLength == n
            && End(f) == (if i + piece.room < n then i + piece.room else n)
            && f.payload == FragmentPayload(b, i, End(f))
  {
    hide CheckBundle, EncodePrimary, AddAll, Kept, Has, SetFragment, PrimaryCovered, CrcBytes;
    var primary := FragmentPrimary(b.primary, i, |b.payload.value.data|);
    IsFragmentPrimary(b.primary, i, |b.payload.value.data|, StampedPrimary(env, primary).crc);
  }

  lemma {:induction false} FragmentsPartition(env: Env, b: Bundle, mtu: int, overhead: Overhead, i: nat)
    requires Fragmentable(b) && FragmentsFrom(env, b, mtu, overhead, i).Some? && i <= |b.payload.value.data|
    ensures Partition(b, FragmentsFrom(env, b, mtu, overhead, i).value, i)
    decreases |b.payload.value.data| - i
  {
    hide FragmentAt;
    var n := |b.payload.value.data|;
    if i < n {
      FragmentShape(env, b, mtu, overhead, i);
      var piece := FragmentAt(env, b, mtu, overhead, i).value;
      var bs := FragmentsFrom(env, b, mtu, overhead, i).value;
      assert bs[1..] == FragmentsFrom(env, b, mtu, overhead, i + piece.room).value;
      if i + piece.room < n {
        FragmentsPartition(env, b, mtu, overhead, i + piece.room);
      }
    }
  }

  function Join(bs: seq<Bundle>): seq<byte> {
    if bs == [] then [] else Data(bs[0]) + Join(bs[1..])
  }

  /** Put together in order, the fragments' payloads are the payload. */
  lemma {:induction false} PartitionJoins(b: Bundle, bs: seq<Bundle>, i: nat)
    requires Fragmentable(b) && Partition(b, bs, i)
    ensures i <= |b.payload.value.data| && Join(bs) == b.payload.value.data[i..]
  {
    var data := b.payload.value.data;
    if bs != [] {
      PartitionJoins(b, bs[1..], End(bs[0]));
      assert data[i..] == data[i..End(bs[0])] + data[End(bs[0])..];
    }
  }

  // ---------------------------------------------------------------- what a fragment carries

  /** The blocks with an odd control flags field, that is, with bit 0 set: those to replicate in every fragment. */
  function OddFlagged(blocks: seq<CanonicalBlock>): seq<CanonicalBlock> {
    if blocks == [] then []
    else (if blocks[0].flags % 2 == 1 then [blocks[0]] else []) + OddFlagged(blocks[1..])
  }

  lemma {:induction false} OddFlaggedAppend(blocks: seq<CanonicalBlock>, cb: CanonicalBlock)
    ensures OddFlagged(blocks + [cb]) == OddFlagged(blocks) + (if cb.flags % 2 == 1 then [cb] else [])
  {
    if blocks == [] {
      assert blocks + [cb] == [cb];
    } else {
      assert (blocks + [cb])[1..] == blocks[1..] + [cb];
      OddFlaggedAppend(blocks[1..], cb);
    }
  }

  lemma {:induction false} KeptIsOddFlagged(blocks: seq<CanonicalBlock>)
    ensures Kept(blocks, false) == OddFlagged(blocks)
  {
    if blocks != [] {
      var n := |blocks| - 1;
      KeptIsOddFlagged(blocks[..n]);
      OddFlaggedAppend(blocks[..n], blocks[n]);
      assert blocks == blocks[..n] + [blocks[n]];
    }
  }

  /** These blocks in this order, numbered 2, 3, 4, …, with the same flags, CRC types and values. */
  ghost predicate SameBlocks(got: seq<CanonicalBlock>, blocks: seq<CanonicalBlock>) {
    |got| == |blocks| && forall i :: 0 <= i < |got| ==> got[i] == blocks[i].(number := got[i].number) && got[i].number == 2 + i
  }

  /** A fragment of a bundle: the bundle's primary block marked as one, all of its extension blocks or those to replicate, and
      a payload block that differs in its data alone. */
  ghost predicate FragmentOf(b: Bundle, f: Bundle, first: bool) {
    && f.primary == b.primary.(flags := b.primary.flags - b.primary.flags % 2 + 1, fragmentOffset := f.primary.fragmentOffset,
                               totalDataLength := f.primary.totalDataLength, crc := f.primary.crc)
    && f.primary.totalDataLength == |Data(b)|
    && SameBlocks(f.extensions, if first then b.extensions else OddFlagged(b.extensions))
    && f.payload == CanonicalBlock(1, b.payload.flags, b.payload.crcType, [], f.payload.value)
  }

  lemma FragmentIsOf(env: Env, b: Bundle, mtu: int, overhead: Overhead, i: nat)
    requires Fragmentable(b) && i < |b.payload.value.data| && FragmentAt(env, b, mtu, overhead, i).Some?
    requires forall cb :: cb in b.extensions ==> cb.TypeCode() != TYPE_PAYLOAD
    ensures FragmentOf(b, FragmentAt(env, b, mtu, overhead, i).value.fragment, i == 0)
  {
    hide CheckBundle, EncodePrimary, AddAll, Kept, PrimaryCovered, CrcBytes;
    AddAllRenumbers(Kept(b.extensions, i == 0));
    KeptIsOddFlagged(b.extensions);
  }

  lemma {:induction false} FragmentsAreOf(env: Env, b: Bundle, mtu: int, overhead: Overhead, i: nat)
    requires Fragmentable(b) && FragmentsFrom(env, b, mtu, overhead, i).Some?
    requires forall cb :: cb in b.extensions ==> cb.TypeCode() != TYPE_PAYLOAD
    ensures var fs := FragmentsFrom(env, b, mtu, overhead, i).value;
            forall k :: 0 <= k < |fs| ==> FragmentOf(b, fs[k], i == 0 && k == 0)
    decreases |b.payload.value.data| - i
  {
    hide FragmentAt, FragmentOf;
    if i < |b.payload.value.data| {
      FragmentIsOf(env, b, mtu, overhead, i);
      FragmentsAreOf(env, b, mtu, overhead, i + FragmentAt(env, b, mtu, overhead, i).value.room);
    }
  }

  /** Of a bundle that is split the first fragment carries all extension blocks, every other one exactly those with bit 0 of
      their control flags set, in order; the rest of a fragment is the bundle's own, too. */
  lemma FragmentContents(env: Env, b: Bundle, mtu: int)
    requires Fragmentable(b) && -INT_LIMIT <= mtu < INT_LIMIT && Fragments(env, b, mtu).Some?
    requires forall cb :: cb in b.extensions ==> cb.TypeCode() != TYPE_PAYLOAD
    ensures var fs := Fragments(env, b, mtu).value;
            |fs| != 1 ==> forall k :: 0 <= k < |fs| ==> FragmentOf(b, fs[k], k == 0)
  {
    hide FragmentsFrom, FragmentOf, BlocksOverhead;
    FragmentsAreOf(env, b, mtu, BlocksOverhead(env, b, mtu).value, 0);
  }
}
