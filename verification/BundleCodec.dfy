/** Whole bundles on the wire: an indefinite array of the primary block, the extension blocks and the payload block. */
module BundleCodec {
  import opened Bytes
  import opened Cbor
  import opened Blocks
  import opened BlockCodec
  import opened PrimaryCodec

  // ---------------------------------------------------------------- writing

  function EncodeBlocks(env: Env, blocks: seq<CanonicalBlock>): (s: Option<seq<byte>>)
    ensures s.Some? <==> forall cb :: cb in blocks ==> EncodeCanonical(env, cb).Some?
  {
    if blocks == [] then Some([])
    else
      assert forall cb :: cb in blocks <==> cb == blocks[0] || cb in blocks[1..];
      var first :- EncodeCanonical(env, blocks[0]);
      var others :- EncodeBlocks(env, blocks[1..]);
      Some(first + others)
  }

  /** The payload block is written last. */
  function EncodeBundle(env: Env, b: Bundle): (s: Option<seq<byte>>)
    ensures s.Some? <==> EncodePrimary(env, b.primary).Some? && EncodeBlocks(env, b.extensions + [b.payload]).Some?
  {
    var primary :- EncodePrimary(env, b.primary);
    var blocks :- EncodeBlocks(env, b.extensions + [b.payload]);
    Some([INDEFINITE_ARRAY] + (primary + (blocks + [BREAK_CODE])))
  }

  // ---------------------------------------------------------------- reading

  /** Canonical blocks up to the break code. */
  function DecodeBlocks(env: Env, s: seq<byte>): (p: Parsed<seq<CanonicalBlock>>)
    ensures p.Within(s)
    ensures !p.Break?
    decreases |s|
  {
    match DecodeCanonical(env, s)
    case Break(rest) => Ok([], rest)
    case Fail => Fail
    case Ok(cb, rest) =>
      var (blocks, end) :- DecodeBlocks(env, rest);
      Ok([cb] + blocks, end)
  }

  function Extensions(blocks: seq<CanonicalBlock>): (r: seq<CanonicalBlock>)
    ensures forall cb :: cb in r <==> cb in blocks && cb.TypeCode() != TYPE_PAYLOAD
    ensures |r| <= |blocks|
  {
    if blocks == [] then []
    else
      assert blocks == [blocks[0]] + blocks[1..];
      (if blocks[0].TypeCode() == TYPE_PAYLOAD then [] else [blocks[0]]) + Extensions(blocks[1..])
  }

  /** A later payload block replaces an earlier one. */
  function LastPayload(blocks: seq<CanonicalBlock>): (r: Option<CanonicalBlock>)
    ensures r.Some? ==> r.value.TypeCode() == TYPE_PAYLOAD && r.value in blocks
  {
    if blocks == [] then None
    else if blocks[|blocks| - 1].TypeCode() == TYPE_PAYLOAD then Some(blocks[|blocks| - 1])
    else LastPayload(blocks[..|blocks| - 1])
  }

  /** The primary block and all canonical blocks in wire order. */
  function DecodeAll(env: Env, s: seq<byte>): (p: Parsed<(PrimaryBlock, seq<CanonicalBlock>)>)
    ensures p.Within(s)
  {
    var (_, s1) :- ReadExpect(INDEFINITE_ARRAY, s);
    var (primary, s2) :- DecodePrimary(env, s1).Wrapped();
    var (blocks, s3) :- DecodeBlocks(env, s2);
    Ok((primary, blocks), s3)
  }

  /** Without a payload block the original dereferences a nil block value. */
  function DecodeBundle(env: Env, s: seq<byte>): (p: Parsed<Bundle>)
    ensures p.Within(s)
    ensures p.Ok? ==> CheckBundle(env, p.value)
  {
    var (all, rest) :- DecodeAll(env, s);
    var payload := LastPayload(all.1);
    if payload.None? then Fail
    else
      var b := Bundle(all.0, Extensions(all.1), payload.value);
      if CheckBundle(env, b) then Ok(b, rest) else Fail
  }

  // ---------------------------------------------------------------- round trips

  function FilledBlocks(env: Env, blocks: seq<CanonicalBlock>): (r: seq<CanonicalBlock>)
    requires forall cb :: cb in blocks ==> EncodeCanonical(env, cb).Some?
    ensures |r| == |blocks|
    ensures forall i :: 0 <= i < |r| ==> r[i] == Filled(env, blocks[i])
  {
    seq(|blocks|, i requires 0 <= i < |blocks| => Filled(env, blocks[i]))
  }

  ghost predicate AllSized(blocks: seq<CanonicalBlock>) {
    forall cb :: cb in blocks ==> SizedValue(cb.value)
  }

  ghost predicate AllReadable(env: Env, blocks: seq<CanonicalBlock>) {
    forall cb :: cb in blocks ==> Readable(env, cb.value)
  }

  ghost predicate SameTypes(a: seq<CanonicalBlock>, b: seq<CanonicalBlock>) {
    |a| == |b| && forall i :: 0 <= i < |a| ==> a[i].TypeCode() == b[i].TypeCode()
  }

  lemma FilledTail(env: Env, blocks: seq<CanonicalBlock>)
    requires blocks != [] && forall cb :: cb in blocks ==> EncodeCanonical(env, cb).Some?
    ensures forall cb :: cb in blocks[1..] ==> EncodeCanonical(env, cb).Some?
    ensures FilledBlocks(env, blocks) == [Filled(env, blocks[0])] + FilledBlocks(env, blocks[1..])
  {
    hide EncodeCanonical, Filled;
  }

  lemma {:induction false} BlocksRoundTrip(env: Env, blocks: seq<CanonicalBlock>, t: seq<byte>)
    requires EncodeBlocks(env, blocks).Some? && AllSized(blocks)
    ensures var p := DecodeBlocks(env, EncodeBlocks(env, blocks).value + ([BREAK_CODE] + t));
            && (p.Ok? ==> p.rest == t && SameTypes(p.value, blocks))
            && (p == Ok(FilledBlocks(env, blocks), t) <==> AllReadable(env, blocks))
  {
    hide DecodeCanonical, EncodeCanonical, Filled, SizedValue, Readable, FilledBlocks, AllSized, AllReadable, SameTypes;
    var end := [BREAK_CODE] + t;
    var s := EncodeBlocks(env, blocks).value + end;
    if blocks == [] {
      assert s == end;
      BreakEndsBlocks(env, t);
      NoBlocks(env);
    } else {
      var s1 := EncodeBlocks(env, blocks[1..]).value + end;
      FilledTail(env, blocks);
      HeadAndTail(env, blocks);
      Associative(EncodeCanonical(env, blocks[0]).value, EncodeBlocks(env, blocks[1..]).value, end);
      CanonicalRoundTrip(env, blocks[0], s1);
      BlocksRoundTrip(env, blocks[1..], t);
      var p := DecodeCanonical(env, s);
      var q := DecodeBlocks(env, s1);
      if p.Ok? && q.Ok? {
        SameTypesCons(p.value, q.value, blocks);
        ConsInjective(p.value, q.value, Filled(env, blocks[0]), FilledBlocks(env, blocks[1..]));
      }
    }
  }

  lemma NoBlocks(env: Env)
    ensures FilledBlocks(env, []) == [] && AllReadable(env, []) && SameTypes([], [])
  {
  }

  lemma HeadAndTail(env: Env, blocks: seq<CanonicalBlock>)
    requires blocks != []
    ensures AllReadable(env, blocks) <==> Readable(env, blocks[0].value) && AllReadable(env, blocks[1..])
    ensures AllSized(blocks) <==> SizedValue(blocks[0].value) && AllSized(blocks[1..])
  {
    hide Readable, SizedValue;
    assert blocks == [blocks[0]] + blocks[1..];
  }

  lemma SameTypesCons(cb: CanonicalBlock, got: seq<CanonicalBlock>, blocks: seq<CanonicalBlock>)
    requires blocks != [] && cb.TypeCode() == blocks[0].TypeCode() && SameTypes(got, blocks[1..])
    ensures SameTypes([cb] + got, blocks)
  {
  }

  lemma ConsInjective<T>(x: T, xs: seq<T>, y: T, ys: seq<T>)
    ensures [x] + xs == [y] + ys <==> x == y && xs == ys
  {
    if [x] + xs == [y] + ys {
      assert ([x] + xs)[0] == x && ([x] + xs)[1..] == xs && ([y] + ys)[1..] == ys;
    }
  }

  lemma BreakEndsBlocks(env: Env, t: seq<byte>)
    ensures DecodeCanonical(env, [BREAK_CODE] + t) == Break(t)
  {
    var s := [BREAK_CODE] + t;
    assert s[0] == BREAK_CODE && s[1..] == t;
    assert ReadMajors(s) == Break(t);
  }

  ghost predicate SizedBundle(b: Bundle) {
    SizedPrimary(b.primary) && AllSized(b.extensions + [b.payload])
  }

  /** The bundle with the checksums it carries on the wire. */
  function FilledBundle(env: Env, b: Bundle): Bundle
    requires EncodeBundle(env, b).Some?
  {
    var blocks := FilledBlocks(env, b.extensions + [b.payload]);
    Bundle(FilledPrimary(env, b.primary), blocks[..|b.extensions|], blocks[|b.extensions|])
  }

  /** The shape of a bundle that the wire form can express: the payload block is the one block of the payload type. */
  ghost predicate ReadableBundle(env: Env, b: Bundle) {
    && ReadablePrimary(b.primary)
    && AllReadable(env, b.extensions + [b.payload])
    && b.payload.TypeCode() == TYPE_PAYLOAD
    && forall cb :: cb in b.extensions ==> cb.TypeCode() != TYPE_PAYLOAD
  }

  lemma SplitBundle(primary: seq<byte>, blocks: seq<byte>, t: seq<byte>)
    ensures var s := ([INDEFINITE_ARRAY] + (primary + (blocks + [BREAK_CODE]))) + t;
            ReadExpect(INDEFINITE_ARRAY, s) == Ok((), primary + (blocks + ([BREAK_CODE] + t)))
  {
    var s := ([INDEFINITE_ARRAY] + (primary + (blocks + [BREAK_CODE]))) + t;
    assert s[1..] == primary + (blocks + ([BREAK_CODE] + t));
  }

  lemma AllRoundTrip(env: Env, b: Bundle, t: seq<byte>)
    requires EncodeBundle(env, b).Some? && SizedBundle(b)
    ensures var blocks := b.extensions + [b.payload];
            var p := DecodeAll(env, EncodeBundle(env, b).value + t);
            && (p.Ok? ==> p.rest == t && SameTypes(p.value.1, blocks))
            && (p == Ok((FilledPrimary(env, b.primary), FilledBlocks(env, blocks)), t)
                <==> ReadablePrimary(b.primary) && AllReadable(env, blocks))
  {
    hide DecodeBlocks, EncodeBlocks, EncodePrimary, DecodePrimary, FilledPrimary;
    hide FilledBlocks, ReadablePrimary, AllReadable, AllSized, SizedPrimary;
    hide SameTypes, ReadExpect, EncodeCanonical;
    var blocks := b.extensions + [b.payload];
    var primary := EncodePrimary(env, b.primary).value;
    SplitBundle(primary, EncodeBlocks(env, blocks).value, t);
    PrimaryRoundTrip(env, b.primary, EncodeBlocks(env, blocks).value + ([BREAK_CODE] + t));
    BlocksRoundTrip(env, blocks, t);
  }

  lemma {:induction false} ExtensionsAppend(blocks: seq<CanonicalBlock>, cb: CanonicalBlock)
    ensures Extensions(blocks + [cb]) == Extensions(blocks) + (if cb.TypeCode() == TYPE_PAYLOAD then [] else [cb])
  {
    if blocks == [] {
      assert blocks + [cb] == [cb];
    } else {
      assert (blocks + [cb])[1..] == blocks[1..] + [cb];
      ExtensionsAppend(blocks[1..], cb);
    }
  }

  /** Nothing was filtered out if nothing is missing. */
  lemma {:induction false} FullLengthExtensions(blocks: seq<CanonicalBlock>)
    ensures |Extensions(blocks)| == |blocks| <==> forall cb :: cb in blocks ==> cb.TypeCode() != TYPE_PAYLOAD
    ensures |Extensions(blocks)| == |blocks| ==> Extensions(blocks) == blocks
  {
    if blocks != [] {
      assert blocks == [blocks[0]] + blocks[1..];
      FullLengthExtensions(blocks[1..]);
    }
  }

  /** Separating the payload from the other blocks keeps everything exactly if the payload block is last and the only
      one of its type. */
  lemma SeparatePayload(blocks: seq<CanonicalBlock>, n: nat)
    requires |blocks| == n + 1
    ensures Extensions(blocks) == blocks[..n] && LastPayload(blocks) == Some(blocks[n])
            <==> blocks[n].TypeCode() == TYPE_PAYLOAD && forall cb :: cb in blocks[..n] ==> cb.TypeCode() != TYPE_PAYLOAD
  {
    hide Extensions;
    assert blocks == blocks[..n] + [blocks[n]];
    ExtensionsAppend(blocks[..n], blocks[n]);
    FullLengthExtensions(blocks[..n]);
  }

  /** Checksums play no part in validity. */
  lemma ValidFilled(env: Env, b: Bundle)
    requires EncodeBundle(env, b).Some?
    ensures CheckBundle(env, FilledBundle(env, b)) <==> CheckBundle(env, b)
  {
    hide OfType, EncodeCanonical, EncodePrimary, EncodeBlocks, CrcBytes, TimeValid, ExtensionsValid;
    var f, n := FilledBundle(env, b), |b.extensions|;
    var blocks := b.extensions + [b.payload];
    assert f.primary == b.primary.(crc := f.primary.crc) && f.payload == b.payload.(crc := f.payload.crc);
    forall i | 0 <= i < n ensures f.extensions[i] == b.extensions[i].(crc := f.extensions[i].crc) {
      assert blocks[i] == b.extensions[i];
    }
    TimeSameValues(env, b, f);
    ValidUpToCrc(b.extensions, f.extensions);
    ValidUpToCrc(f.extensions, b.extensions);
  }

  lemma ValidUpToCrc(a: seq<CanonicalBlock>, b: seq<CanonicalBlock>)
    requires |a| == |b| && forall i :: 0 <= i < |a| ==> b[i] == a[i].(crc := b[i].crc)
    ensures ExtensionsValid(a) ==> ExtensionsValid(b)
  {
    hide ContextValid;
    if ExtensionsValid(a) {
      forall i | 0 <= i < |b| ensures b[i].TypeCode() == TYPE_PAYLOAD ==> b[i].number == 1 {
        assert a[i].CheckValid();
      }
      ExtensionsSameValues(a, b);
    }
  }

  lemma SameTypesSeparate(a: seq<CanonicalBlock>, b: seq<CanonicalBlock>, n: nat)
    requires SameTypes(a, b) && |b| == n + 1
    ensures |a| == n + 1
    ensures (a[n].TypeCode() == TYPE_PAYLOAD && forall cb :: cb in a[..n] ==> cb.TypeCode() != TYPE_PAYLOAD)
            <==> (b[n].TypeCode() == TYPE_PAYLOAD && forall cb :: cb in b[..n] ==> cb.TypeCode() != TYPE_PAYLOAD)
  {
    assert forall i :: 0 <= i < n ==> a[i] in a[..n] && b[i] in b[..n];
  }

  /** Reading back what was written, followed by anything, gives the bundle with its checksums and leaves exactly what
      followed, precisely for the valid bundles that the wire form can express. */
  lemma BundleRoundTrip(env: Env, b: Bundle, t: seq<byte>)
    requires EncodeBundle(env, b).Some? && SizedBundle(b)
    ensures DecodeBundle(env, EncodeBundle(env, b).value + t) == Ok(FilledBundle(env, b), t)
            <==> ReadableBundle(env, b) && CheckBundle(env, b)
  {
    hide DecodeAll, EncodeBundle, FilledPrimary, FilledBlocks, CheckBundle, ReadablePrimary, AllReadable, SizedBundle, EncodeCanonical;
    hide Extensions, LastPayload, SameTypes;
    var n := |b.extensions|;
    var blocks := b.extensions + [b.payload];
    assert blocks[n] == b.payload && blocks[..n] == b.extensions;
    var p := DecodeAll(env, EncodeBundle(env, b).value + t);
    AllRoundTrip(env, b, t);
    ValidFilled(env, b);
    if p.Ok? {
      var got := p.value.1;
      assert |got| == n + 1 by { SameTypesLength(got, blocks); }
      SeparatePayload(got, n);
      SameTypesSeparate(got, blocks, n);
      var filled := FilledBlocks(env, blocks);
      assert filled == filled[..n] + [filled[n]];
      if Extensions(got) == filled[..n] && LastPayload(got) == Some(filled[n]) {
        FilledTypes(env, got, blocks);
        SeparatedWhole(got, filled, n);
      }
    }
  }

  lemma SameTypesLength(a: seq<CanonicalBlock>, b: seq<CanonicalBlock>)
    requires SameTypes(a, b)
    ensures |a| == |b|
  {
  }

  lemma FilledTypes(env: Env, got: seq<CanonicalBlock>, blocks: seq<CanonicalBlock>)
    requires SameTypes(got, blocks) && forall cb :: cb in blocks ==> EncodeCanonical(env, cb).Some?
    ensures SameTypes(got, FilledBlocks(env, blocks))
  {
    hide EncodeCanonical, CrcBytes;
  }

  /** The payload block that was separated must have been the last block. */
  lemma SeparatedWhole(got: seq<CanonicalBlock>, filled: seq<CanonicalBlock>, n: nat)
    requires SameTypes(got, filled) && |filled| == n + 1
    requires Extensions(got) == filled[..n] && LastPayload(got) == Some(filled[n])
    ensures got == filled
  {
    hide SameTypes;
    SameTypesLength(got, filled);
    SameTypesSeparate(got, filled, n);
    SeparatePayload(got, n);
    assert got == got[..n] + [got[n]] && filled == filled[..n] + [filled[n]];
  }
}
