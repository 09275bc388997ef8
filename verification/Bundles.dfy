/** The bundle as the program holds it: a record whose extension blocks are added, removed, written and read in place. */
module Bundles {
  import opened Bytes
  import opened Cbor
  import opened Streams
  import opened Blocks
  import opened BlockCodec
  import opened PrimaryCodec
  import opened BundleCodec
  import opened PartialCodec
  import opened BlockStreams
  import opened Sorting
  import opened Numbering

  // ---------------------------------------------------------------- writing

  lemma {:induction false} EncodeBlocksAppend(env: Env, blocks: seq<CanonicalBlock>, cb: CanonicalBlock)
    requires EncodeBlocks(env, blocks).Some? && EncodeCanonical(env, cb).Some?
    ensures EncodeBlocks(env, blocks + [cb])
         == Some(EncodeBlocks(env, blocks).value + EncodeCanonical(env, cb).value)
  {
    hide EncodeCanonical;
    if blocks == [] {
      assert blocks + [cb] == [cb] && [cb][1..] == [];
      var c := EncodeCanonical(env, cb).value;
      assert c + [] == c == [] + c;
    } else {
      assert (blocks + [cb])[0] == blocks[0] && (blocks + [cb])[1..] == blocks[1..] + [cb];
      assert forall x :: x in blocks[1..] ==> x in blocks;
      EncodeBlocksAppend(env, blocks[1..], cb);
      Associative(EncodeCanonical(env, blocks[0]).value, EncodeBlocks(env, blocks[1..]).value, EncodeCanonical(env, cb).value);
    }
  }

  /** Blocks after they were written: every one that has a checksum carries a fresh one, and nothing else changed. */
  ghost predicate AllStamped(env: Env, before: seq<CanonicalBlock>, after: seq<CanonicalBlock>) {
    && |after| == |before|
    && forall i :: 0 <= i < |before| ==> EncodeCanonical(env, before[i]).Some? && after[i] == Stamped(env, before[i])
  }

  lemma NoneStamped(env: Env)
    ensures AllStamped(env, [], [])
  {
  }

  lemma AllStampedAppend(env: Env, before: seq<CanonicalBlock>, after: seq<CanonicalBlock>, cb: CanonicalBlock)
    requires AllStamped(env, before, after) && EncodeCanonical(env, cb).Some?
    ensures AllStamped(env, before + [cb], after + [Stamped(env, cb)])
  {
    hide EncodeCanonical, Stamped;
  }

  ghost predicate IsStamped(env: Env, b: Bundle, stamped: Bundle)
    requires EncodeBundle(env, b).Some?
  {
    && stamped.primary == StampedPrimary(env, b.primary)
    && AllStamped(env, b.extensions + [b.payload], stamped.extensions + [stamped.payload])
  }

  // ---------------------------------------------------------------- reading

  /** What is still to be read, after the blocks that were. */
  function Continue(got: seq<CanonicalBlock>, p: Parsed<seq<CanonicalBlock>>): Parsed<seq<CanonicalBlock>> {
    if p.Ok? then Ok(got + p.value, p.rest) else p
  }

  lemma ContinueOne(got: seq<CanonicalBlock>, cb: CanonicalBlock, p: Parsed<seq<CanonicalBlock>>)
    ensures Continue(got, Continue([cb], p)) == Continue(got + [cb], p)
  {
    if p.Ok? {
      assert got + ([cb] + p.value) == got + [cb] + p.value;
    }
  }

  lemma ContinueNothing(p: Parsed<seq<CanonicalBlock>>)
    ensures Continue([], p) == p
  {
    if p.Ok? {
      assert [] + p.value == p.value;
    }
  }

  lemma LastPayloadAppend(blocks: seq<CanonicalBlock>, cb: CanonicalBlock)
    ensures LastPayload(blocks + [cb]) == if cb.TypeCode() == TYPE_PAYLOAD then Some(cb) else LastPayload(blocks)
  {
    var all := blocks + [cb];
    assert all[..|all| - 1] == blocks;
  }

  lemma RemoveFromNothing(number: uint64)
    ensures RemoveNumber([], number) == []
  {
  }

  lemma RemoveStep(blocks: seq<CanonicalBlock>, i: nat, number: uint64)
    requires i < |blocks|
    ensures blocks[..i] + RemoveNumber(blocks[i..], number)
         == if blocks[i].number == number then blocks[..i] + blocks[i + 1..]
            else blocks[..i + 1] + RemoveNumber(blocks[i + 1..], number)
  {
    assert blocks[i..][1..] == blocks[i + 1..];
    assert blocks[..i + 1] == blocks[..i] + [blocks[i]];
  }

  lemma NothingGot()
    ensures Extensions([]) == [] && LastPayload([]) == None
  {
  }

  lemma FrameBytes(before: seq<byte>, primary: seq<byte>, blocks: seq<byte>)
    ensures before + [INDEFINITE_ARRAY] + primary + blocks + [BREAK_CODE]
         == before + ([INDEFINITE_ARRAY] + (primary + (blocks + [BREAK_CODE])))
  {
  }

  /** Reading a bundle into a record that may have been filled before: its extension blocks stay in front of those that are
      read, and its payload stays if none is read. */
  function UnmarshalInto(env: Env, primary: PrimaryBlock, extensions: seq<CanonicalBlock>, payload: Option<CanonicalBlock>,
                         s: seq<byte>): Parsed<Bundle>
  {
    var (_, s1) :- ReadExpect(INDEFINITE_ARRAY, s);
    var (pb, s2) :- DecodePrimaryInto(env, primary, s1).Wrapped();
    var (blocks, s3) :- DecodeBlocks(env, s2);
    var last := if LastPayload(blocks).Some? then LastPayload(blocks) else payload;
    if last.None? then Fail
    else
      var b := Bundle(pb, extensions + Extensions(blocks), last.value);
      if CheckBundle(env, b) then Ok(b, s3) else Fail
  }

  /** A new record then holds what was written. */
  lemma UnmarshalNew(env: Env, s: seq<byte>)
    ensures UnmarshalInto(env, EMPTY_PRIMARY, [], None, s) == DecodeBundle(env, s)
  {
    hide DecodePrimary, DecodePrimaryInto, DecodeBlocks, CheckBundle, Extensions, LastPayload;
    var p := ReadExpect(INDEFINITE_ARRAY, s);
    if p.Ok? {
      DecodeIntoEmpty(env, p.rest);
      var q := DecodePrimary(env, p.rest).Wrapped();
      if q.Ok? && DecodeBlocks(env, q.rest).Ok? {
        var blocks := DecodeBlocks(env, q.rest).value;
        assert [] + Extensions(blocks) == Extensions(blocks);
      }
    }
  }

  class MutableBundle {
    var primary: PrimaryBlock
    var extensions: seq<CanonicalBlock>
    var payload: Option<CanonicalBlock>

    constructor (primary: PrimaryBlock, extensions: seq<CanonicalBlock>, payload: Option<CanonicalBlock>)
      ensures this.primary == primary && this.extensions == extensions && this.payload == payload
    {
      this.primary, this.extensions, this.payload := primary, extensions, payload;
    }

    function Value(): Bundle
      reads this
      requires payload.Some?
    {
      Bundle(primary, extensions, payload.value)
    }

    method MarshalExtensions(env: Env, w: Writer) returns (ok: bool)
      requires !w.copying
      modifies this`extensions, w
      ensures ok <==> EncodeBlocks(env, old(extensions)).Some?
      ensures ok ==> w.data == old(w.data) + EncodeBlocks(env, old(extensions)).value
      ensures ok ==> AllStamped(env, old(extensions), extensions)
      ensures !w.copying
    {
      hide EncodeCanonical, Stamped, AllStamped;
      ghost var blocks := extensions;
      var i := 0;
      assert EncodeBlocks(env, blocks[..0]) == Some([]);
      assert AllStamped(env, [], []) by { NoneStamped(env); }
      while i < |extensions|
        invariant !w.copying
        invariant i <= |extensions| == |blocks|
        invariant extensions[i..] == blocks[i..]
        invariant AllStamped(env, blocks[..i], extensions[..i])
        invariant EncodeBlocks(env, blocks[..i]).Some?
        invariant w.data == old(w.data) + EncodeBlocks(env, blocks[..i]).value
      {
        assert extensions[i] == extensions[i..][0] == blocks[i];
        var written, stamped := MarshalCanonical(env, extensions[i], w);
        if !written {
          assert blocks[i] in blocks;
          return false;
        }
        assert blocks[..i + 1] == blocks[..i] + [blocks[i]];
        EncodeBlocksAppend(env, blocks[..i], blocks[i]);
        AllStampedAppend(env, blocks[..i], extensions[..i], blocks[i]);
        assert extensions[i := stamped][..i + 1] == extensions[..i] + [stamped];
        assert extensions[i := stamped][i + 1..] == extensions[i..][1..] == blocks[i..][1..];
        extensions := extensions[i := stamped];
        i := i + 1;
      }
      assert blocks[..i] == blocks && extensions[..i] == extensions;
      return true;
    }

    /** Write the blocks, payload last. */
    method MarshalBlocks(env: Env, w: Writer) returns (ok: bool)
      requires !w.copying && payload.Some?
      modifies this`extensions, this`payload, w
      ensures ok <==> EncodeBlocks(env, old(extensions) + [old(payload.value)]).Some?
      ensures ok ==> w.data == old(w.data) + EncodeBlocks(env, old(extensions) + [old(payload.value)]).value
      ensures ok ==> payload.Some? && AllStamped(env, old(extensions) + [old(payload.value)], extensions + [payload.value])
      ensures !w.copying
    {
      hide EncodeCanonical, Stamped, AllStamped;
      ghost var blocks, last := extensions, payload.value;
      assert forall cb :: cb in blocks ==> cb in blocks + [last];
      assert last in blocks + [last];
      var written := MarshalExtensions(env, w);
      if !written {
        return false;
      }
      var finished, stamped := MarshalCanonical(env, payload.value, w);
      if !finished {
        return false;
      }
      EncodeBlocksAppend(env, blocks, last);
      AllStampedAppend(env, blocks, extensions, last);
      payload := Some(stamped);
      return true;
    }

    /** Write the bundle. Its checksum fields are filled on the way. */
    method MarshalCbor(env: Env, w: Writer) returns (ok: bool)
      requires !w.copying && payload.Some?
      modifies this, w
      ensures ok <==> EncodeBundle(env, old(Value())).Some?
      ensures ok ==> w.data == old(w.data) + EncodeBundle(env, old(Value())).value
      ensures ok ==> payload.Some? && IsStamped(env, old(Value()), Value())
    {
      hide EncodePrimary, EncodeBlocks, AllStamped, StampedPrimary;
      w.Write([INDEFINITE_ARRAY]);
      var written, stamped := MarshalPrimary(env, primary, w);
      if !written {
        return false;
      }
      primary := stamped;
      ok := MarshalBlocks(env, w);
      if ok {
        w.Write([BREAK_CODE]);
        FrameBytes(old(w.data), EncodePrimary(env, old(primary)).value,
                   EncodeBlocks(env, old(extensions) + [old(payload.value)]).value);
      }
    }

    /** Read blocks up to the break code. */
    method UnmarshalBlocks(env: Env, r: Reader) returns (ok: bool)
      requires !r.teeing
      modifies this`extensions, this`payload, r
      ensures var p := DecodeBlocks(env, old(r.rest));
              && ok == p.Ok?
              && (ok ==> r.rest == p.rest && extensions == old(extensions) + Extensions(p.value))
              && (ok ==> payload == if LastPayload(p.value).Some? then LastPayload(p.value) else old(payload))
      ensures ok ==> !r.teeing
    {
      hide DecodeCanonical, Extensions, LastPayload;
      ghost var got := [];
      NothingGot();
      ContinueNothing(DecodeBlocks(env, r.rest));
      while true
        invariant !r.teeing
        invariant DecodeBlocks(env, old(r.rest)) == Continue(got, DecodeBlocks(env, r.rest))
        invariant extensions == old(extensions) + Extensions(got)
        invariant payload == if LastPayload(got).Some? then LastPayload(got) else old(payload)
        decreases |r.rest|
      {
        ghost var s := r.rest;
        var next := UnmarshalCanonical(env, r);
        if next.Broke? {
          assert got + [] == got;
          return true;
        } else if next.Failed? {
          return false;
        }
        var cb := next.value;
        assert DecodeBlocks(env, s) == Continue([cb], DecodeBlocks(env, r.rest));
        ContinueOne(got, cb, DecodeBlocks(env, r.rest));
        ExtensionsAppend(got, cb);
        LastPayloadAppend(got, cb);
        assert Extensions(got) + [] == Extensions(got);
        got := got + [cb];
        if cb.TypeCode() == TYPE_PAYLOAD {
          payload := Some(cb);
        } else {
          extensions := extensions + [cb];
        }
      }
    }

    /** Read a bundle into this record. */
    method UnmarshalCbor(env: Env, r: Reader) returns (ok: bool)
      requires !r.teeing
      modifies this, r
      ensures var p := UnmarshalInto(env, old(primary), old(extensions), old(payload), old(r.rest));
              && ok == p.Ok?
              && (ok ==> r.rest == p.rest && payload.Some? && Value() == p.value)
      ensures ok ==> !r.teeing
    {
      hide DecodeBlocks, DecodePrimaryInto, CheckBundle, Extensions, LastPayload;
      var start := r.ReadExpect(INDEFINITE_ARRAY);
      if !start.Got? {
        return false;
      }
      var first := UnmarshalPrimary(env, r, primary);
      if !first.Got? {
        return false;
      }
      primary := first.value;
      ok := UnmarshalBlocks(env, r);
      return ok && payload.Some? && CheckBundle(env, Value());
    }

    // -------------------------------------------------------------- extension blocks

    method AddExtensionBlock(block: CanonicalBlock)
      requires |extensions| <= MAX_BLOCKS
      modifies this`extensions
      ensures extensions == AddBlock(old(extensions), block)
    {
      var number := FindFree(extensions, StartNumber(block));
      NumbersSize(extensions);
      LeastFreeUnique(Numbers(extensions), StartNumber(block), number, LeastFree(Numbers(extensions), StartNumber(block)));
      extensions := SortBy(Key, extensions + [block.(number := number)]);
    }

    method RemoveExtensionBlockByBlockNumber(number: uint64)
      modifies this`extensions
      ensures extensions == RemoveNumber(old(extensions), number)
    {
      hide RemoveNumber;
      ghost var before := extensions;
      assert before[..0] == [] && before[0..] == before && before[|before|..] == [] && RemoveNumber([], number) == [] by {
        RemoveFromNothing(number);
      }
      for i := 0 to |extensions|
        invariant extensions == before
        invariant RemoveNumber(before, number) == before[..i] + RemoveNumber(before[i..], number)
      {
        RemoveStep(before, i, number);
        if extensions[i].number == number {
          extensions := extensions[..i] + extensions[i + 1..];
          return;
        }
      }
    }

    /** ExtensionBlockByType: the block of this type, if there is exactly one. */
    function ExtensionBlockByType(code: uint64): (cb: Option<CanonicalBlock>)
      reads this
      ensures cb.Some? ==> cb.value in extensions && cb.value.TypeCode() == code
    {
      var cbs := OfType(extensions, code);
      if |cbs| == 1 then Some(cbs[0]) else None
    }
  }

  // ---------------------------------------------------------------- partial parsing

  method ParsePartialBundle(env: Env, r: Reader, wanted: seq<uint64>, seekable: bool) returns (p: Option<PartialBundle>)
    requires !r.teeing
    modifies r
    ensures p == ParsePartial(env, old(r.rest), wanted, seekable)
  {
    hide DecodePrimary, DecodePrimaryInto, PartialBlocks;
    var start := r.ReadExpect(INDEFINITE_ARRAY);
    if !start.Got? {
      return None;
    }
    DecodeIntoEmpty(env, r.rest);
    var primary := UnmarshalPrimary(env, r, EMPTY_PRIMARY);
    if !primary.Got? {
      return None;
    }
    var blocks := ParseWantedBlocks(env, r, wanted, seekable);
    if blocks.None? || !primary.value.CheckValid() {
      return None;
    }
    for i := 0 to |blocks.value|
      invariant forall j :: 0 <= j < i ==> blocks.value[j].CheckValid()
    {
      if !blocks.value[i].CheckValid() {
        return None;
      }
    }
    return Some(PartialBundle(primary.value, blocks.value));
  }

  lemma PartialStep(env: Env, s: seq<byte>, wanted: seq<uint64>, seekable: bool)
    ensures var next := DecodeWanted(env, s, wanted, seekable);
            var p := PartialBlocks(env, s, wanted, seekable);
            && (next.Stop? ==> p == Some([]))
            && (next.Abort? ==> p == None)
            && (next.Skipped? ==>
                  p == if next.code == TYPE_PAYLOAD then Some([]) else PartialBlocks(env, next.rest, wanted, seekable))
            && (next.Read? ==>
                  var left := Remove(wanted, next.cb.TypeCode());
                  p == if next.cb.TypeCode() == TYPE_PAYLOAD then Some([])
                       else if left == [] then Some([next.cb])
                       else Resume([next.cb], PartialBlocks(env, next.rest, left, seekable)))
  {
    hide DecodeWanted, Remove;
  }

  method ParseWantedBlocks(env: Env, r: Reader, wanted: seq<uint64>, seekable: bool) returns (blocks: Option<seq<CanonicalBlock>>)
    requires !r.teeing
    modifies r
    ensures blocks == PartialBlocks(env, old(r.rest), wanted, seekable)
  {
    hide DecodeWanted, Remove, PartialBlocks, Resume;
    var got, left := [], wanted;
    ghost var total := PartialBlocks(env, r.rest, wanted, seekable);
    ResumeNothing(total);
    while true
      invariant !r.teeing
      invariant total == Resume(got, PartialBlocks(env, r.rest, left, seekable))
      decreases |r.rest|
    {
      PartialStep(env, r.rest, left, seekable);
      ResumeEnd(got);
      var next := UnmarshalWanted(env, r, left, seekable);
      if next.Stop? {
        return Some(got);
      } else if next.Abort? {
        return None;
      } else if next.Skipped? {
        if next.code == TYPE_PAYLOAD {
          return Some(got);
        }
      } else if next.cb.TypeCode() == TYPE_PAYLOAD {
        return Some(got);
      } else {
        left := Remove(left, next.cb.TypeCode());
        ResumeTwice(got, [next.cb], PartialBlocks(env, r.rest, left, seekable));
        got := got + [next.cb];
        if left == [] {
          return Some(got);
        }
      }
    }
  }
}
