/** When a bundle is valid, said once more in the terms of RFC 9171: which bits, which numbers, which blocks. */
module Validity {
  import opened Bytes
  import opened Text
  import opened Endpoint
  import opened Blocks
  import opened StoreFields
  import opened WireFormat

  /** The bytes of an ASCII text. */
  function Ascii(s: string): seq<byte> {
    seq(|s|, i requires 0 <= i < |s| => s[i] as int % 0x80)
  }

  /** What may stand in a node name. */
  lemma NameBytesExactly(b: byte)
    ensures IsNameByte(b) <==>
      'a' <= b as char <= 'z' || 'A' <= b as char <= 'Z' || '0' <= b as char <= '9' || b as char in "_-.~!$&'()*+,;="
  {
  }

  /** The URIs of the two schemes. */
  lemma UriText(e: EndpointID)
    ensures match e
            case DtnNone => Uri(e) == Ascii("dtn:none")
            case Dtn(nodeName, demux) => Uri(e) == Ascii("dtn://") + nodeName + Ascii("/") + demux
            case Ipn(node, service) => Uri(e) == Ascii("ipn:") + Decimal(node) + Ascii(".") + Decimal(service)
  {
    hide Decimal, Ascii;
    Letters();
    if e.Dtn? {
      assert DTN_PREFIX + ([SLASH, SLASH] + e.nodeName + [SLASH] + e.demux)
          == DTN_PREFIX + [SLASH, SLASH] + e.nodeName + [SLASH] + e.demux;
    }
  }

  lemma Letters()
    ensures Ascii("dtn:none") == DTN_PREFIX + NONE_SSP && Ascii("dtn://") == DTN_PREFIX + [SLASH, SLASH]
    ensures Ascii("ipn:") == IPN_PREFIX && Ascii("/") == [SLASH] && Ascii(".") == [DOT]
  {
  }

  /** The text has a double slash, a name and a slash somewhere in it. */
  ghost predicate HasName(text: seq<byte>) {
    exists before: seq<byte>, name: seq<byte>, behind: seq<byte> :: NameWithin(text, before, name, behind)
  }

  ghost predicate NameWithin(text: seq<byte>, before: seq<byte>, name: seq<byte>, behind: seq<byte>) {
    IsName(name) && text == before + Ascii("//") + name + Ascii("/") + behind
  }

  lemma MatchHasName(s: seq<byte>, i: nat, j: nat)
    requires MatchesAt(s, i, j)
    ensures HasName(s)
  {
    hide IsName;
    assert Ascii("//") == [0x2F, 0x2F] && Ascii("/") == [0x2F];
    assert s == s[..i] + [0x2F, 0x2F] + s[i + 2..j] + [0x2F] + s[j + 1..];
    assert NameWithin(s, s[..i], s[i + 2..j], s[j + 1..]);
  }

  lemma NameMatches(s: seq<byte>, before: seq<byte>, name: seq<byte>, behind: seq<byte>)
    requires NameWithin(s, before, name, behind)
    ensures MatchesAt(s, |before|, |before| + 2 + |name|)
  {
    assert Ascii("//") == [0x2F, 0x2F] && Ascii("/") == [0x2F];
    assert s[|before| + 2..|before| + 2 + |name|] == name;
  }

  /** An ipn endpoint is valid iff both of its numbers are at least 1, and a dtn endpoint if a name is found anywhere in its
      text. */
  lemma EndpointValidExactly(e: EndpointID)
    ensures Endpoint.CheckValid(e) <==>
      match e
      case DtnNone => true
      case Dtn(nodeName, demux) => HasName(Ascii("//") + nodeName + Ascii("/") + demux)
      case Ipn(node, service) => node >= 1 && service >= 1
  {
    hide MatchesAt, NameWithin;
    if e.Dtn? {
      var s := Ssp(e.nodeName, e.demux);
      assert s == Ascii("//") + e.nodeName + Ascii("/") + e.demux;
      if Endpoint.CheckValid(e) {
        var i: nat, j: nat :| 0 <= i < |s| && 0 <= j < |s| && MatchesAt(s, i, j);
        MatchHasName(s, i, j);
      }
      if HasName(s) {
        var before: seq<byte>, name: seq<byte>, behind: seq<byte> :| NameWithin(s, before, name, behind);
        NameMatches(s, before, name, behind);
        MatchIsWithin(s, |before|, |before| + 2 + |name|);
      }
    }
  }

  lemma MatchIsWithin(s: seq<byte>, i: nat, j: nat)
    requires MatchesAt(s, i, j)
    ensures i < |s| && j < |s|
  {
  }

  // ---------------------------------------------------------------- bundles

  /** No status report is asked for: bits 14, 16, 17 and 18 of the flags. */
  predicate Silent(flags: uint64) {
    flags / 0x4000 % 2 == 0 && flags / 0x1_0000 % 2 == 0 && flags / 0x2_0000 % 2 == 0 && flags / 0x4_0000 % 2 == 0
  }

  /** Bit 0 marks a fragment, bit 1 an administrative record, bit 2 forbids fragmentation. */
  predicate PrimaryValid(p: PrimaryBlock) {
    && p.version == 7
    && !(p.flags % 2 == 1 && p.flags / 4 % 2 == 1)
    && (p.flags / 2 % 2 == 1 ==> Silent(p.flags))
    && Endpoint.CheckValid(p.destination) && Endpoint.CheckValid(p.source) && Endpoint.CheckValid(p.reportTo)
    && (p.source == DtnNone ==> p.flags / 4 % 2 == 1 && Silent(p.flags))
  }

  /** A payload block has number 1, no more hops are counted than allowed, and a previous node is a valid endpoint. */
  predicate BlockValid(cb: CanonicalBlock) {
    && (TypeNumber(cb.value) == 1 ==> cb.number == 1)
    && (cb.value.HopCount? ==> cb.value.count <= cb.value.limit)
    && (cb.value.PreviousNode? ==> Endpoint.CheckValid(cb.value.endpoint))
  }


  predicate Is(cb: CanonicalBlock, code: uint64) {
    TypeNumber(cb.value) == code && !cb.value.Generic?
  }

  /** There is exactly one age block, and it says at most this many milliseconds. */
  predicate AgedAtMost(blocks: seq<CanonicalBlock>, limit: uint64) {
    exists k :: 0 <= k < |blocks| && OnlyOfItsType(blocks, k) && blocks[k].value.BundleAge? && blocks[k].value.ms <= limit
  }

  predicate BlocksValid(blocks: seq<CanonicalBlock>) {
    && (forall i :: 0 <= i < |blocks| ==> BlockValid(blocks[i]))
    && (forall i, j :: 0 <= i < j < |blocks| ==> blocks[i].number != blocks[j].number)
    && (forall i :: 0 <= i < |blocks| && (Is(blocks[i], 6) || Is(blocks[i], 7) || Is(blocks[i], 10)) ==> OnlyOfItsType(blocks, i))
  }

  lemma BlocksValidExactly(blocks: seq<CanonicalBlock>)
    ensures ExtensionsValid(blocks) <==> BlocksValid(blocks)
  {
    hide OfType, Endpoint.CheckValid, OnlyOfItsType;
    forall i | 0 <= i < |blocks|
      ensures blocks[i].CheckValid() <==> BlockValid(blocks[i])
      ensures ContextValid(blocks, blocks[i].value) <==>
        (Is(blocks[i], 6) || Is(blocks[i], 7) || Is(blocks[i], 10) ==> OnlyOfItsType(blocks, i))
    {
      CountedOnce(blocks, i);
    }
  }

  lemma AgedExactly(blocks: seq<CanonicalBlock>, limit: uint64)
    ensures var ages := OfType(blocks, TYPE_BUNDLE_AGE);
            AgedAtMost(blocks, limit) <==> |ages| == 1 && ages[0].value.BundleAge? && ages[0].value.ms <= limit
  {
    hide OfType;
    var ages := OfType(blocks, TYPE_BUNDLE_AGE);
    if AgedAtMost(blocks, limit) {
      var k :| 0 <= k < |blocks| && OnlyOfItsType(blocks, k) && blocks[k].value.BundleAge? && blocks[k].value.ms <= limit;
      OnlyOne(blocks, k);
    }
    if |ages| == 1 && ages[0].value.BundleAge? && ages[0].value.ms <= limit {
      assert ages[0] in blocks;
      var k :| 0 <= k < |blocks| && blocks[k] == ages[0];
      CountedOnce(blocks, k);
    }
  }

  /** A bundle is valid exactly if its primary block is; its extension blocks are, have different numbers, and at most one of
      them names the previous node, tells the age or counts hops; its payload block is and does not ask for reports; and it
      has not expired, which its age tells if it was made without a clock. */
  lemma BundleValidExactly(env: Env, b: Bundle)
    ensures CheckBundle(env, b) <==>
      && PrimaryValid(b.primary) && BlocksValid(b.extensions)
      && BlockValid(b.payload) && b.payload.flags / 2 % 2 == 0
      && (if b.primary.timestamp.time == 0 then AgedAtMost(b.extensions, b.primary.lifetime)
          else !env.expired(b.primary.timestamp.time, b.primary.lifetime))
  {
    hide ExtensionsValid, BlocksValid, AgedAtMost, Endpoint.CheckValid, OfType;
    BlocksValidExactly(b.extensions);
    AgedExactly(b.extensions, b.primary.lifetime);
    PrimaryValidExactly(b.primary);
  }

  lemma PrimaryValidExactly(p: PrimaryBlock)
    ensures p.CheckValid() <==> PrimaryValid(p)
  {
    hide Endpoint.CheckValid;
  }
}
