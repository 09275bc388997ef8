/** The partial parser: it reads the primary block and the wanted extension blocks, and skips everything else. */
module PartialCodec {
  import opened Bytes
  import opened Cbor
  import opened Blocks
  import opened BlockCodec
  import opened PrimaryCodec
  import opened BundleCodec

  const INT64_LIMIT: uint64 := 0x8000_0000_0000_0000

  datatype PartialBundle = PartialBundle(primary: PrimaryBlock, extensions: seq<CanonicalBlock>)

  /** `Stop` ends the block loop without an error, `Abort` with an error or a nil dereference. */
  datatype Wanted = Read(cb: CanonicalBlock, rest: seq<byte>) | Skipped(code: uint64, rest: seq<byte>) | Stop | Abort

  /** Skip the data of a block: seeking may move past the end, copying may not. A length of 2^63 or more turns negative
      in int64: then copying skips nothing, and seeking is not modelled. */
  function Skip(n: uint64, seekable: bool, s: seq<byte>): (r: Option<seq<byte>>)
    ensures r.Some? ==> |r.value| <= |s|
  {
    if n >= INT64_LIMIT then (if seekable then None else Some(s))
    else if n <= |s| then Some(s[n..])
    else if seekable then Some([])
    else None
  }

  function AfterError(broke: bool, code: uint64): Wanted {
    if broke || code == TYPE_PAYLOAD then Stop else Abort
  }

  /** The skip path checks neither the data nor the checksum. */
  function SkipBlock(size: uint64, code: uint64, seekable: bool, s: seq<byte>): (w: Wanted)
    ensures w.Skipped? ==> |w.rest| <= |s| && w.code == code
    ensures !w.Read?
  {
    match ReadByteStringLen(s)
    case Break(_) => Stop
    case Fail => Abort
    case Ok(n, s1) =>
      var s2 := Skip(n, seekable, s1);
      if s2.None? then Abort
      else if size == 5 then Skipped(code, s2.value)
      else
        match ReadByteString(s2.value)
        case Ok(_, s3) => Skipped(code, s3)
        case Break(_) => AfterError(true, code)
        case Fail => AfterError(false, code)
  }

  function ReadWanted(env: Env, size: uint64, s0: seq<byte>, head: BlockHead, s1: seq<byte>): (w: Wanted)
    ensures w.Read? ==> |w.rest| <= |s1| && w.cb.TypeCode() == head.code
    ensures !w.Skipped?
  {
    var v := ReadBlock(env, head.code, s1);
    if !v.Ok? then Abort
    else
      match ReadCrc(env, size == 6, head.crcType, ArrayHead(size) + Consumed(s0, v.rest), v.rest)
      case Ok(crc, rest) => Read(CanonicalBlock(head.number, head.flags, head.crcType, crc, v.value), rest)
      case Break(_) => AfterError(true, head.code)
      case Fail => AfterError(false, head.code)
  }

  function DecodeWanted(env: Env, s: seq<byte>, wanted: seq<uint64>, seekable: bool): (w: Wanted)
    ensures w.Read? || w.Skipped? ==> |w.rest| < |s|
    ensures w.Read? ==> w.cb.TypeCode() in wanted
  {
    match DecodeSize(s)
    case Break(_) => Stop
    case Fail => Abort
    case Ok(size, s0) =>
      match DecodeHead(s0)
      case Break(_) => Stop
      case Fail => Abort
      case Ok(head, s1) =>
        if head.code in wanted then ReadWanted(env, size, s0, head, s1) else SkipBlock(size, head.code, seekable, s1)
  }

  /** slices.Index and slices.Delete: drop the first occurrence. */
  function Remove(wanted: seq<uint64>, code: uint64): (r: seq<uint64>)
    requires code in wanted
    ensures multiset(r) == multiset(wanted) - multiset{code}
  {
    if wanted[0] == code then
      assert wanted == [wanted[0]] + wanted[1..];
      wanted[1..]
    else
      assert wanted == [wanted[0]] + wanted[1..];
      [wanted[0]] + Remove(wanted[1..], code)
  }

  /** The loop ends at the payload block, at the break code, or when nothing is wanted any more. */
  function PartialBlocks(env: Env, s: seq<byte>, wanted: seq<uint64>, seekable: bool): Option<seq<CanonicalBlock>>
    decreases |s|
  {
    match DecodeWanted(env, s, wanted, seekable)
    case Stop => Some([])
    case Abort => None
    case Skipped(code, rest) =>
      if code == TYPE_PAYLOAD then Some([]) else PartialBlocks(env, rest, wanted, seekable)
    case Read(cb, rest) =>
      if cb.TypeCode() == TYPE_PAYLOAD then Some([])
      else
        var left := Remove(wanted, cb.TypeCode());
        if left == [] then Some([cb])
        else
          var others :- PartialBlocks(env, rest, left, seekable);
          Some([cb] + others)
  }

  function ParsePartial(env: Env, s: seq<byte>, wanted: seq<uint64>, seekable: bool): Option<PartialBundle> {
    var start := ReadExpect(INDEFINITE_ARRAY, s);
    if !start.Ok? then None
    else
      var primary := DecodePrimary(env, start.rest);
      if !primary.Ok? then None
      else
        var extensions :- PartialBlocks(env, primary.rest, wanted, seekable);
        if primary.value.CheckValid() && forall i :: 0 <= i < |extensions| ==> extensions[i].CheckValid()
        then Some(PartialBundle(primary.value, extensions))
        else None
  }

  // ---------------------------------------------------------------- what is selected

  /** Of the blocks before the payload, each type as often as it is wanted, in bundle order. */
  function Select(blocks: seq<CanonicalBlock>, wanted: seq<uint64>): seq<CanonicalBlock> {
    if blocks == [] then []
    else if blocks[0].TypeCode() in wanted then [blocks[0]] + Select(blocks[1..], Remove(wanted, blocks[0].TypeCode()))
    else Select(blocks[1..], wanted)
  }

  function BeforePayload(blocks: seq<CanonicalBlock>): seq<CanonicalBlock> {
    if blocks == [] || blocks[0].TypeCode() == TYPE_PAYLOAD then [] else [blocks[0]] + BeforePayload(blocks[1..])
  }

  ghost predicate IsSubsequence<T>(a: seq<T>, b: seq<T>) {
    if a == [] then true
    else b != [] && ((a[0] == b[0] && IsSubsequence(a[1..], b[1..])) || IsSubsequence(a, b[1..]))
  }

  function FirstOf<T>(n: nat, s: seq<T>): seq<T> {
    if n <= |s| then s[..n] else s
  }

  /** The selection keeps bundle order. */
  lemma {:induction false} SelectInOrder(blocks: seq<CanonicalBlock>, wanted: seq<uint64>)
    ensures IsSubsequence(Select(blocks, wanted), blocks)
  {
    hide Remove;
    if blocks != [] {
      var cb := blocks[0];
      if cb.TypeCode() in wanted {
        var others := Select(blocks[1..], Remove(wanted, cb.TypeCode()));
        SelectInOrder(blocks[1..], Remove(wanted, cb.TypeCode()));
        assert Select(blocks, wanted) == [cb] + others && ([cb] + others)[1..] == others;
      } else {
        SelectInOrder(blocks[1..], wanted);
        SkipInSubsequence(Select(blocks, wanted), blocks);
      }
    }
  }

  /** Of every type the selection holds the first blocks, as many as are wanted. For distinct wanted types that is the
      first block of each. */
  lemma {:induction false} SelectMeaning(blocks: seq<CanonicalBlock>, wanted: seq<uint64>, code: uint64)
    ensures OfType(Select(blocks, wanted), code) == FirstOf(multiset(wanted)[code], OfType(blocks, code))
  {
    hide Remove, OfType, FirstOf;
    if blocks == [] {
      assert FirstOf(multiset(wanted)[code], OfType(blocks, code)) == [] by { NothingToTake(multiset(wanted)[code], code); }
      assert Select(blocks, wanted) == blocks;
      NothingToTake(0, code);
    } else {
      var cb, taken := blocks[0], blocks[0].TypeCode() in wanted;
      var left := if taken then Remove(wanted, cb.TypeCode()) else wanted;
      SelectMeaning(blocks[1..], left, code);
      assert blocks == [cb] + blocks[1..];
      assert Select(blocks, wanted) == (if taken then [cb] else []) + Select(blocks[1..], left);
      SelectStep(cb, Select(blocks[1..], left), blocks[1..], code, multiset(wanted)[code], taken);
    }
  }

  lemma NothingToTake(n: nat, code: uint64)
    ensures OfType([], code) == [] && FirstOf<CanonicalBlock>(n, []) == []
  {
  }

  lemma SelectStep(cb: CanonicalBlock, others: seq<CanonicalBlock>, blocks: seq<CanonicalBlock>, code: uint64, m: nat, taken: bool)
    requires cb.TypeCode() == code ==> (taken <==> m > 0)
    requires OfType(others, code) == FirstOf(if taken && cb.TypeCode() == code then m - 1 else m, OfType(blocks, code))
    ensures OfType((if taken then [cb] else []) + others, code) == FirstOf(m, OfType([cb] + blocks, code))
  {
    hide OfType;
    OfTypeCons(cb, others, code);
    OfTypeCons(cb, blocks, code);
    FirstOfCons(m, cb, OfType(blocks, code));
    assert [] + others == others;
  }

  lemma OfTypeCons(cb: CanonicalBlock, others: seq<CanonicalBlock>, code: uint64)
    ensures OfType([cb] + others, code) == (if cb.TypeCode() == code then [cb] else []) + OfType(others, code)
  {
    assert ([cb] + others)[1..] == others;
  }

  lemma FirstOfCons<T>(n: nat, x: T, s: seq<T>)
    ensures n > 0 ==> FirstOf(n, [x] + s) == [x] + FirstOf(n - 1, s)
    ensures FirstOf(0, s) == []
  {
  }

  lemma SkipInSubsequence<T>(a: seq<T>, b: seq<T>)
    requires b != [] && IsSubsequence(a, b[1..])
    ensures IsSubsequence(a, b)
  {
  }

  lemma {:induction false} SelectNothing(blocks: seq<CanonicalBlock>)
    ensures Select(blocks, []) == []
  {
    if blocks != [] {
      SelectNothing(blocks[1..]);
    }
  }

  lemma {:induction false} SelectIn(blocks: seq<CanonicalBlock>, wanted: seq<uint64>)
    ensures forall cb :: cb in Select(blocks, wanted) ==> cb in blocks
  {
    if blocks != [] {
      SelectIn(blocks[1..], if blocks[0].TypeCode() in wanted then Remove(wanted, blocks[0].TypeCode()) else wanted);
      assert blocks == [blocks[0]] + blocks[1..];
    }
  }

  lemma {:induction false} BeforePayloadIn(blocks: seq<CanonicalBlock>)
    ensures forall cb :: cb in BeforePayload(blocks) ==> cb in Extensions(blocks)
  {
    if blocks != [] {
      assert blocks == [blocks[0]] + blocks[1..];
      BeforePayloadIn(blocks[1..]);
    }
  }

  lemma {:induction false} BeforeLastPayload(blocks: seq<CanonicalBlock>, payload: CanonicalBlock)
    requires payload.TypeCode() == TYPE_PAYLOAD && forall cb :: cb in blocks ==> cb.TypeCode() != TYPE_PAYLOAD
    ensures BeforePayload(blocks + [payload]) == blocks
  {
    if blocks != [] {
      assert blocks == [blocks[0]] + blocks[1..];
      assert (blocks + [payload])[1..] == blocks[1..] + [payload];
      BeforeLastPayload(blocks[1..], payload);
    }
  }

  // ---------------------------------------------------------------- agreement with the full reader

  lemma SkipAgrees(env: Env, size: uint64, code: uint64, seekable: bool, s0: seq<byte>, head: BlockHead, s1: seq<byte>)
    requires |s1| < INT64_LIMIT && size in {5, 6} && head.code == code
    ensures var v := ReadBlock(env, code, s1);
            v.Ok? ==>
              match ReadCrc(env, size == 6, head.crcType, ArrayHead(size) + Consumed(s0, v.rest), v.rest)
              case Ok(_, rest) => SkipBlock(size, code, seekable, s1) == Skipped(code, rest)
              case Break(_) => SkipBlock(size, code, seekable, s1) == Stop
              case Fail => true
  {
    hide UnmarshalValue, ReadExpected, CrcBytes;
  }

  /** Where the full block reader succeeds, both paths of the partial one leave the same bytes; where it finds the break
      code, so does the partial one. */
  lemma BlockAgrees(env: Env, s: seq<byte>, wanted: seq<uint64>, seekable: bool)
    requires |s| < INT64_LIMIT
    ensures match DecodeCanonical(env, s)
            case Ok(cb, rest) => DecodeWanted(env, s, wanted, seekable)
                              == if cb.TypeCode() in wanted then Read(cb, rest) else Skipped(cb.TypeCode(), rest)
            case Break(_) => DecodeWanted(env, s, wanted, seekable) == Stop
            case Fail => true
  {
    hide DecodeSize, DecodeHead, ReadBlock, ReadCrc, SkipBlock, ArrayHead, Consumed;
    var size := DecodeSize(s);
    if size.Ok? {
      var head := DecodeHead(size.rest);
      if head.Ok? {
        SkipAgrees(env, size.value, head.value.code, seekable, size.rest, head.value, head.rest);
      }
    }
  }

  lemma {:induction false} BlocksAgree(env: Env, s: seq<byte>, wanted: seq<uint64>, seekable: bool)
    requires |s| < INT64_LIMIT && DecodeBlocks(env, s).Ok?
    ensures PartialBlocks(env, s, wanted, seekable) == Some(Select(BeforePayload(DecodeBlocks(env, s).value), wanted))
    decreases |s|
  {
    hide DecodeCanonical, DecodeWanted, Remove;
    BlockAgrees(env, s, wanted, seekable);
    match DecodeCanonical(env, s)
    case Break(_) =>
    case Ok(cb, rest) =>
      var blocks := DecodeBlocks(env, s).value;
      assert blocks == [cb] + DecodeBlocks(env, rest).value;
      assert blocks[0] == cb && blocks[1..] == DecodeBlocks(env, rest).value;
      if cb.TypeCode() != TYPE_PAYLOAD {
        var before := BeforePayload(blocks);
        assert before[0] == cb && before[1..] == BeforePayload(blocks[1..]);
        if cb.TypeCode() in wanted {
          var left := Remove(wanted, cb.TypeCode());
          assert Select(before, wanted) == [cb] + Select(before[1..], left);
          SelectNothing(before[1..]);
          assert [cb] + [] == [cb];
          BlocksAgree(env, rest, left, seekable);
        } else {
          assert Select(before, wanted) == Select(before[1..], wanted);
          BlocksAgree(env, rest, wanted, seekable);
        }
      }
  }

  /** On every input the full parser accepts, the partial parser succeeds, with the same primary block and with the
      wanted blocks that stand before the payload, whatever is wanted and whether or not the stream can seek. */
  lemma PartialRefinesFull(env: Env, s: seq<byte>, wanted: seq<uint64>, seekable: bool)
    requires |s| < INT64_LIMIT && DecodeBundle(env, s).Ok?
    ensures DecodeAll(env, s).Ok?
    ensures ParsePartial(env, s, wanted, seekable)
         == Some(PartialBundle(DecodeBundle(env, s).value.primary, Select(BeforePayload(DecodeAll(env, s).value.1), wanted)))
  {
    hide DecodeBlocks, PartialBlocks, DecodePrimary, Select, BeforePayload, Extensions, LastPayload, TimeValid, ContextValid;
    var all := DecodeAll(env, s);
    var start := ReadExpect(INDEFINITE_ARRAY, s);
    var primary := DecodePrimary(env, start.rest);
    BlocksAgree(env, primary.rest, wanted, seekable);
    var before := BeforePayload(all.value.1);
    BeforePayloadIn(all.value.1);
    SelectIn(before, wanted);
    var b := DecodeBundle(env, s).value;
    forall cb | cb in Select(before, wanted) ensures cb.CheckValid() {
      assert cb in b.extensions;
    }
  }

  /** On the encoding of a bundle: the wanted extension blocks of that bundle. */
  lemma PartialOfEncoding(env: Env, b: Bundle, t: seq<byte>, wanted: seq<uint64>, seekable: bool)
    requires EncodeBundle(env, b).Some? && SizedBundle(b) && ReadableBundle(env, b) && CheckBundle(env, b)
    requires |EncodeBundle(env, b).value + t| < INT64_LIMIT
    ensures ParsePartial(env, EncodeBundle(env, b).value + t, wanted, seekable)
         == Some(PartialBundle(FilledPrimary(env, b.primary), Select(FilledBundle(env, b).extensions, wanted)))
  {
    hide DecodeBundle, EncodeBundle, DecodeAll, FilledBlocks, ReadablePrimary;
    hide AllReadable, CheckBundle, SizedBundle, ParsePartial, Select, FilledPrimary;
    var s := EncodeBundle(env, b).value + t;
    var blocks := b.extensions + [b.payload];
    BundleRoundTrip(env, b, t);
    AllRoundTrip(env, b, t);
    PartialRefinesFull(env, s, wanted, seekable);
    var filled := FilledBlocks(env, blocks);
    var n := |b.extensions|;
    assert filled == filled[..n] + [filled[n]];
    FilledKeepsTypes(env, b, filled);
    BeforeLastPayload(filled[..n], filled[n]);
  }

  lemma FilledKeepsTypes(env: Env, b: Bundle, filled: seq<CanonicalBlock>)
    requires EncodeBundle(env, b).Some? && ReadableBundle(env, b)
    requires filled == FilledBlocks(env, b.extensions + [b.payload])
    ensures var n := |b.extensions|;
            filled[n].TypeCode() == TYPE_PAYLOAD && forall cb :: cb in filled[..n] ==> cb.TypeCode() != TYPE_PAYLOAD
  {
    hide EncodeCanonical, EncodeBlocks, FilledBlocks, ReadablePrimary, AllReadable, SameTypes;
    var n := |b.extensions|;
    var blocks := b.extensions + [b.payload];
    assert blocks[n] == b.payload && blocks[..n] == b.extensions;
    SameTypesReflexive(blocks);
    FilledTypes(env, blocks, blocks);
    SameTypesSeparate(blocks, filled, n);
  }

  lemma SameTypesReflexive(blocks: seq<CanonicalBlock>)
    ensures SameTypes(blocks, blocks)
  {
  }
}
