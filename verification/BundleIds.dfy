/** Bundle IDs: their text form, which is also the key of the metadata database, and their CBOR form. */
module BundleIds {
  import opened Bytes
  import opened Text
  import opened Cbor
  import opened Streams
  import opened Endpoint
  import opened Blocks
  import opened PrimaryCodec
  import opened BlockCodec
  import opened BlockStreams

  datatype BundleID = BundleID(source: EndpointID, timestamp: Timestamp, isFragment: bool, offset: uint64, total: uint64)

  function ID(b: Bundle): BundleID {
    BundleID(b.primary.source, b.primary.timestamp, b.primary.HasFragmentation(), b.primary.fragmentOffset, b.primary.totalDataLength)
  }

  // ---------------------------------------------------------------- text

  /** `s-n`. */
  function Dashed(s: seq<byte>, n: uint64): seq<byte> {
    s + [DASH] + Decimal(n)
  }

  function Print(bid: BundleID): seq<byte> {
    var s := Dashed(Dashed(Uri(bid.source), bid.timestamp.time), bid.timestamp.sequence);
    if bid.isFragment then Dashed(Dashed(s, bid.offset), bid.total) else s
  }

  function ParseParts(parts: seq<seq<byte>>): Option<BundleID> {
    if |parts| != 3 && |parts| != 5 then None
    else
      var source :- NewEndpointID(parts[0]);
      var time :- ParseUint(parts[1]);
      var sequence :- ParseUint(parts[2]);
      if |parts| == 3 then Some(BundleID(source, Timestamp(time, sequence), false, 0, 0))
      else
        var offset :- ParseUint(parts[3]);
        var total :- ParseUint(parts[4]);
        Some(BundleID(source, Timestamp(time, sequence), true, offset, total))
  }

  function NewBundleID(uri: seq<byte>): Option<BundleID> {
    ParseParts(Split(uri, DASH))
  }

  /** Only a fragment has an offset and a total length. */
  predicate Canonical(bid: BundleID) {
    !bid.isFragment ==> bid.offset == 0 && bid.total == 0
  }

  function Fields(bid: BundleID): seq<uint64> {
    [bid.timestamp.time, bid.timestamp.sequence] + if bid.isFragment then [bid.offset, bid.total] else []
  }

  function DashedAll(s: seq<byte>, ns: seq<uint64>): seq<byte> {
    if ns == [] then s else Dashed(DashedAll(s, ns[..|ns| - 1]), ns[|ns| - 1])
  }

  function Decimals(ns: seq<uint64>): (r: seq<seq<byte>>)
    ensures |r| == |ns| && forall i :: 0 <= i < |ns| ==> r[i] == Decimal(ns[i])
  {
    if ns == [] then [] else Decimals(ns[..|ns| - 1]) + [Decimal(ns[|ns| - 1])]
  }

  lemma DashedAllAppend(s: seq<byte>, ns: seq<uint64>, n: uint64)
    ensures DashedAll(s, ns + [n]) == Dashed(DashedAll(s, ns), n)
  {
    assert (ns + [n])[..|ns|] == ns;
  }

  lemma PrintIsDashed(bid: BundleID)
    ensures Print(bid) == DashedAll(Uri(bid.source), Fields(bid))
  {
    hide Uri, Dashed;
    var u, t, s := Uri(bid.source), bid.timestamp.time, bid.timestamp.sequence;
    assert [] + [t] == [t] && [t] + [s] == [t, s] && [t, s] + [] == [t, s];
    DashedAllAppend(u, [], t);
    DashedAllAppend(u, [t], s);
    DashedAllAppend(u, [t, s], bid.offset);
    DashedAllAppend(u, [t, s] + [bid.offset], bid.total);
    assert [t, s] + [bid.offset, bid.total] == [t, s] + [bid.offset] + [bid.total];
  }

  /** Splitting at the last dash undoes appending a number. */
  lemma {:induction false} SplitAppended(s: seq<byte>, n: uint64)
    ensures Split(Dashed(s, n), DASH) == Split(s, DASH) + [Decimal(n)]
    decreases |s|
  {
    hide Decimal, IndexOf;
    var d := Decimal(n);
    NoDash(d);
    SplitLast(d, DASH);
    var i := IndexOf(s, DASH);
    if i == |s| {
      assert s[..i] == s;
      SplitLast(s, DASH);
      SplitFirst(s, DASH, d);
    } else {
      var head, tail := s[..i], s[i + 1..];
      assert s == head + [DASH] + tail;
      assert Dashed(s, n) == head + [DASH] + Dashed(tail, n);
      SplitFirst(head, DASH, tail);
      SplitFirst(head, DASH, Dashed(tail, n));
      SplitAppended(tail, n);
    }
  }

  lemma NoDash(d: seq<byte>)
    requires AllDigits(d)
    ensures DASH !in d
  {
  }

  lemma {:induction false} SplitDashed(s: seq<byte>, ns: seq<uint64>)
    ensures Split(DashedAll(s, ns), DASH) == Split(s, DASH) + Decimals(ns)
  {
    hide Dashed, Split;
    if ns != [] {
      SplitDashed(s, ns[..|ns| - 1]);
      SplitAppended(DashedAll(s, ns[..|ns| - 1]), ns[|ns| - 1]);
    }
  }

  /** What NewEndpointID accepts without a dash prints without a dash. */
  lemma ParsedWithoutDash(uri: seq<byte>)
    requires NewEndpointID(uri).Some? && DASH !in uri
    ensures DASH !in Uri(NewEndpointID(uri).value)
  {
    hide IndexOf, Decimal, ParseIpn;
    var e := NewEndpointID(uri).value;
    match e
    case DtnNone =>
    case Dtn(nodeName, demux) =>
      assert Uri(e) == uri by { assert uri == uri[..4] + uri[4..]; }
    case Ipn(node, service) =>
      NoDash(Decimal(node));
      NoDash(Decimal(service));
  }

  lemma DashlessParts(bid: BundleID)
    requires DASH !in Uri(bid.source)
    ensures Split(Print(bid), DASH) == [Uri(bid.source)] + Decimals(Fields(bid))
  {
    hide Print, Uri, DashedAll, Fields;
    PrintIsDashed(bid);
    SplitDashed(Uri(bid.source), Fields(bid));
    SplitLast(Uri(bid.source), DASH);
  }

  lemma ParseOwnParts(bid: BundleID)
    ensures ParseParts([Uri(bid.source)] + Decimals(Fields(bid))) == Some(bid) <==> WellFormed(bid.source) && Canonical(bid)
  {
    hide Uri, Decimal, NewEndpointID, ParseUint, WellFormed;
    UriRoundTrip(bid.source);
    DecimalRoundTrip(bid.timestamp.time);
    DecimalRoundTrip(bid.timestamp.sequence);
    DecimalRoundTrip(bid.offset);
    DecimalRoundTrip(bid.total);
  }

  /** A printed bundle ID is parsed back exactly if its source is well-formed and prints without a dash, and it has no
      fragment fields unless it is a fragment's. */
  lemma PrintRoundTrip(bid: BundleID)
    ensures NewBundleID(Print(bid)) == Some(bid) <==> WellFormed(bid.source) && DASH !in Uri(bid.source) && Canonical(bid)
  {
    hide Print, Uri, Decimals, Fields, NewEndpointID, ParseUint, WellFormed;
    if DASH !in Uri(bid.source) {
      DashlessParts(bid);
      ParseOwnParts(bid);
    } else if NewBundleID(Print(bid)) == Some(bid) {
      ParsedWithoutDash(Split(Print(bid), DASH)[0]);
      assert false;
    }
  }

  // ---------------------------------------------------------------- the text as a key

  lemma LastDash(p: seq<byte>, d: seq<byte>, k: nat)
    requires DASH !in d && k < |p + [DASH] + d| && (p + [DASH] + d)[k] == DASH
    ensures k <= |p|
  {
    assert forall i :: |p| < i < |p + [DASH] + d| ==> (p + [DASH] + d)[i] == d[i - |p| - 1];
  }

  /** A number after the last dash is determined by the text. */
  lemma DashedInjective(p: seq<byte>, m: uint64, q: seq<byte>, n: uint64)
    requires Dashed(p, m) == Dashed(q, n)
    ensures p == q && m == n
  {
    hide Decimal, DigitsValue;
    var c, d := Decimal(m), Decimal(n);
    var s := Dashed(p, m);
    NoDash(c);
    NoDash(d);
    LastDash(p, c, |q|);
    LastDash(q, d, |p|);
    assert s[..|p|] == p && s[..|q|] == q && s[|p| + 1..] == c && s[|q| + 1..] == d;
    DecimalRoundTrip(m);
    DecimalRoundTrip(n);
  }

  /** What the text of an ID shows: offset and total length only for a fragment. */
  function Shown(bid: BundleID): BundleID {
    if bid.isFragment then bid else bid.(offset := 0, total := 0)
  }

  /** Two IDs of whole bundles, or of fragments, that differ in nothing but how their sources are given. */
  predicate Alike(a: BundleID, b: BundleID) {
    Uri(a.source) == Uri(b.source) && Shown(a).(source := b.source) == Shown(b)
  }

  /** Whole bundles' IDs, or fragments' IDs, print alike exactly if they show the same, whatever their sources are. */
  lemma SameKindExactly(a: BundleID, b: BundleID)
    requires a.isFragment == b.isFragment
    ensures Print(a) == Print(b) <==> Alike(a, b)
    ensures WellFormed(a.source) && WellFormed(b.source) ==> (Alike(a, b) <==> Shown(a) == Shown(b))
  {
    hide Uri, Dashed, WellFormed, NewEndpointID;
    var sa := Dashed(Dashed(Uri(a.source), a.timestamp.time), a.timestamp.sequence);
    var sb := Dashed(Dashed(Uri(b.source), b.timestamp.time), b.timestamp.sequence);
    if Print(a) == Print(b) {
      if a.isFragment {
        DashedInjective(Dashed(sa, a.offset), a.total, Dashed(sb, b.offset), b.total);
        DashedInjective(sa, a.offset, sb, b.offset);
      }
      DashedInjective(Dashed(Uri(a.source), a.timestamp.time), a.timestamp.sequence,
                      Dashed(Uri(b.source), b.timestamp.time), b.timestamp.sequence);
      DashedInjective(Uri(a.source), a.timestamp.time, Uri(b.source), b.timestamp.time);
    }
    UriRoundTrip(a.source);
    UriRoundTrip(b.source);
  }

  /** The same text, read as a whole bundle's ID and as a fragment's: the fragment's timestamp stands at the end of the whole
      bundle's source, and the whole bundle's timestamp is the fragment's offset and total length. */
  predicate Collide(whole: BundleID, fragment: BundleID) {
    && Uri(whole.source) == Dashed(Dashed(Uri(fragment.source), fragment.timestamp.time), fragment.timestamp.sequence)
    && whole.timestamp == Timestamp(fragment.offset, fragment.total)
  }

  lemma WholeAndFragment(whole: BundleID, fragment: BundleID)
    requires !whole.isFragment && fragment.isFragment
    ensures Print(whole) == Print(fragment) <==> Collide(whole, fragment)
  {
    hide Uri, Dashed;
    var s := Dashed(Dashed(Uri(fragment.source), fragment.timestamp.time), fragment.timestamp.sequence);
    if Print(whole) == Print(fragment) {
      DashedInjective(Dashed(Uri(whole.source), whole.timestamp.time), whole.timestamp.sequence,
                      Dashed(s, fragment.offset), fragment.total);
      DashedInjective(Uri(whole.source), whole.timestamp.time, s, fragment.offset);
    }
  }

  /** When two bundle IDs share a database key, whatever they are: exactly if they are of one kind and show the same, or one
      is a whole bundle's and the other a fragment's and they collide. */
  lemma SameKeyExactly(a: BundleID, b: BundleID)
    ensures Print(a) == Print(b) <==>
      Alike(a, b) || (!a.isFragment && b.isFragment && Collide(a, b)) || (a.isFragment && !b.isFragment && Collide(b, a))
    ensures WellFormed(a.source) && WellFormed(b.source) ==> (Alike(a, b) <==> Shown(a) == Shown(b))
  {
    hide Uri, Dashed, WellFormed, Print, Collide;
    if a.isFragment == b.isFragment {
      SameKindExactly(a, b);
    } else if a.isFragment {
      WholeAndFragment(b, a);
    } else {
      WholeAndFragment(a, b);
    }
  }

  /** The URI with a timestamp at its end. */
  function Stamped(s: seq<byte>, ts: Timestamp): seq<byte> {
    Dashed(Dashed(s, ts.time), ts.sequence)
  }

  lemma DashAtEnd(s: seq<byte>, n: uint64)
    ensures DASH in Dashed(s, n)
  {
    assert Dashed(s, n)[|s|] == DASH;
  }

  lemma NoDashUnlessDtn(e: EndpointID)
    requires !e.Dtn?
    ensures DASH !in Uri(e)
  {
    hide Decimal;
    if e.Ipn? {
      NoDash(Decimal(e.node));
      NoDash(Decimal(e.service));
    }
  }

  lemma StampedWellFormed(nodeName: seq<byte>, demux: seq<byte>, ts: Timestamp)
    requires WellFormed(Dtn(nodeName, demux))
    ensures WellFormed(Dtn(nodeName, Stamped(demux, ts)))
    ensures Uri(Dtn(nodeName, Stamped(demux, ts))) == Stamped(Uri(Dtn(nodeName, demux)), ts)
  {
    hide Decimal, Uri;
    UriOfDashed(nodeName, demux, ts.time);
    UriOfDashed(nodeName, Dashed(demux, ts.time), ts.sequence);
    assert AllDigits(Decimal(ts.time)) && AllDigits(Decimal(ts.sequence));
  }

  lemma UriInjective(a: EndpointID, b: EndpointID)
    requires WellFormed(a) && WellFormed(b) && Uri(a) == Uri(b)
    ensures a == b
  {
    hide Uri, NewEndpointID, WellFormed;
    UriRoundTrip(a);
    UriRoundTrip(b);
  }

  /** A dtn:none or ipn URI with a timestamp at its end is no endpoint's. */
  lemma OnlyDtnCollides(whole: EndpointID, e: EndpointID, ts: Timestamp)
    requires WellFormed(whole) && Uri(whole) == Stamped(Uri(e), ts)
    ensures whole.Dtn? && e.Dtn?
  {
    hide Decimal, Dashed;
    DashAtEnd(Dashed(Uri(e), ts.time), ts.sequence);
    if !whole.Dtn? {
      NoDashUnlessDtn(whole);
      assert false;
    }
    var s := Stamped(Uri(e), ts);
    assert s[..5] == DTN_PREFIX + [SLASH] by { assert Uri(whole)[..5] == DTN_PREFIX + [SLASH]; }
    UriLength(e);
    StampedPrefix(Uri(e), ts);
    assert Uri(e)[4] == SLASH && Uri(e)[0] == DTN_PREFIX[0] by { assert Uri(e)[..5] == s[..5]; }
    SlashOnlyInDtn(e);
  }

  lemma StampedPrefix(s: seq<byte>, ts: Timestamp)
    ensures |s| <= |Stamped(s, ts)| && Stamped(s, ts)[..|s|] == s
  {
    hide Decimal;
  }

  lemma SlashOnlyInDtn(e: EndpointID)
    ensures !e.Dtn? ==> |Uri(e)| >= 5 && !(Uri(e)[4] == SLASH && Uri(e)[0] == DTN_PREFIX[0])
  {
    hide Decimal;
  }

  lemma UriLength(e: EndpointID)
    ensures |Uri(e)| >= 5
  {
    hide Decimal;
  }

  /** On the endpoints themselves: both are dtn endpoints of one node, and the demux part of the whole bundle's source is that
      of the fragment's with the fragment's timestamp at its end. */
  lemma CollideExactly(whole: BundleID, fragment: BundleID)
    requires WellFormed(whole.source) && WellFormed(fragment.source)
    ensures Collide(whole, fragment) <==>
      && whole.source.Dtn? && fragment.source.Dtn? && whole.source.nodeName == fragment.source.nodeName
      && whole.source.demux == Stamped(fragment.source.demux, fragment.timestamp)
      && whole.timestamp == Timestamp(fragment.offset, fragment.total)
  {
    hide Uri, Dashed, WellFormed;
    var w, f, ts := whole.source, fragment.source, fragment.timestamp;
    if Collide(whole, fragment) {
      OnlyDtnCollides(w, f, ts);
    }
    if w.Dtn? && f.Dtn? {
      StampedWellFormed(f.nodeName, f.demux, ts);
      var e := Dtn(f.nodeName, Stamped(f.demux, ts));
      if Uri(w) == Uri(e) {
        UriInjective(w, e);
      }
    }
  }

  const NODE_A: seq<byte> := [0x61]
  const DEMUX_X: seq<byte> := [0x78]

  /** Such a pair: dtn://a/x-1-2-0-0 is a whole bundle's ID, and a fragment's too. */
  lemma CollidingIDs() returns (a: BundleID, b: BundleID)
    ensures a == BundleID(Dtn(NODE_A, Dashed(Dashed(DEMUX_X, 1), 2)), Timestamp(0, 0), false, 0, 0)
    ensures b == BundleID(Dtn(NODE_A, DEMUX_X), Timestamp(1, 2), true, 0, 0)
    ensures WellFormed(a.source) && WellFormed(b.source) && a != b && Print(a) == Print(b)
  {
    a := BundleID(Dtn(NODE_A, Dashed(Dashed(DEMUX_X, 1), 2)), Timestamp(0, 0), false, 0, 0);
    b := BundleID(Dtn(NODE_A, DEMUX_X), Timestamp(1, 2), true, 0, 0);
    assert a.source.demux == [0x78, DASH, 0x31, DASH, 0x32];
    UriOfDashed(NODE_A, Dashed(DEMUX_X, 1), 2);
    UriOfDashed(NODE_A, DEMUX_X, 1);
    assert IsNameByte(0x61);
  }

  lemma UriOfDashed(nodeName: seq<byte>, demux: seq<byte>, n: uint64)
    ensures Uri(Dtn(nodeName, Dashed(demux, n))) == Dashed(Uri(Dtn(nodeName, demux)), n)
  {
    hide Decimal;
    assert Uri(Dtn(nodeName, Dashed(demux, n))) == DTN_PREFIX + ([SLASH, SLASH] + nodeName + [SLASH] + demux + [DASH] + Decimal(n));
  }

  // ---------------------------------------------------------------- CBOR

  function Encode(bid: BundleID): Option<seq<byte>> {
    var source :- EncodeEndpoint(bid.source);
    Some(source + (EncodeTimestamp(bid.timestamp) + if bid.isFragment then UInt(bid.offset) + UInt(bid.total) else []))
  }

  /** The reader has to know beforehand whether it is a fragment's ID. */
  function Decode(isFragment: bool, s: seq<byte>): Parsed<BundleID> {
    var (source, s1) :- DecodeEndpoint(s).Wrapped();
    var (timestamp, s2) :- DecodeTimestamp(s1).Wrapped();
    var (fields, s3) :- DecodeFragmentFields(isFragment, s2);
    Ok(BundleID(source, timestamp, isFragment, fields.0, fields.1), s3)
  }

  lemma CborRoundTrip(bid: BundleID, t: seq<byte>)
    requires Encode(bid).Some? && Sized(bid.source)
    ensures Decode(bid.isFragment, Encode(bid).value + t) == Ok(bid, t) <==> WellFormed(bid.source) && Canonical(bid)
  {
    hide EncodeEndpoint, DecodeEndpoint, EncodeTimestamp, DecodeTimestamp, UInt, ReadPair, WellFormed, Endpoint.CheckValid, Sized;
    EncodesIffValid(bid.source);
    var fields := if bid.isFragment then UInt(bid.offset) + UInt(bid.total) else [];
    var s2 := fields + t;
    var s1 := EncodeTimestamp(bid.timestamp) + s2;
    assert Encode(bid).value + t == EncodeEndpoint(bid.source).value + s1;
    EndpointRoundTrip(bid.source, s1);
    TimestampRoundTrip(bid.timestamp, s2);
    if bid.isFragment {
      ReadPairHeads(bid.offset, bid.total, t);
    } else {
      assert s2 == t;
    }
  }

  method Marshal(bid: BundleID, w: Writer) returns (ok: bool)
    modifies w
    ensures ok <==> Encode(bid).Some?
    ensures ok ==> w.Appended(Encode(bid).value)
  {
    hide EncodeEndpoint, EncodeTimestamp, UInt;
    ok := MarshalEndpoint(bid.source, w);
    if !ok {
      return;
    }
    w.Write(EncodeTimestamp(bid.timestamp));
    if bid.isFragment {
      w.Write(UInt(bid.offset));
      w.Write(UInt(bid.total));
    }
  }

  method Unmarshal(isFragment: bool, r: Reader) returns (bid: Outcome<BundleID>)
    modifies r
    ensures bid == Decode(isFragment, old(r.rest)).Outcome()
    ensures !bid.Failed? ==> r.rest == Decode(isFragment, old(r.rest)).rest
  {
    hide DecodeEndpoint, DecodeTimestamp, DecodeFragmentFields, IsSuffix, Consumed;
    var first := UnmarshalEndpoint(r);
    var source :- first.Wrapped();
    var second := UnmarshalTimestamp(r);
    var timestamp :- second.Wrapped();
    var fields :- UnmarshalFragmentFields(isFragment, r);
    return Got(BundleID(source, timestamp, isFragment, fields.0, fields.1));
  }
}
