/** Endpoint IDs of the dtn and ipn schemes: URIs, and the CBOR form of section 4.2.5 of RFC 9171. */
module Endpoint {
  import opened Bytes
  import opened Cbor
  import opened Streams
  import opened Text

  const DTN_SCHEME_NO: uint64 := 1
  const IPN_SCHEME_NO: uint64 := 2

  const NEWLINE: byte := 0x0A
  const SLASH: byte := 0x2F
  const DOT: byte := 0x2E
  const COLON: byte := 0x3A
  const DASH: byte := 0x2D

  const DTN_PREFIX: seq<byte> := [0x64, 0x74, 0x6E, COLON]  // dtn:
  const IPN_PREFIX: seq<byte> := [0x69, 0x70, 0x6E, COLON]  // ipn:
  const NONE_SSP: seq<byte> := [0x6E, 0x6F, 0x6E, 0x65]     // none

  datatype EndpointID =
    | DtnNone
    | Dtn(nodeName: seq<byte>, demux: seq<byte>)
    | Ipn(node: uint64, service: uint64)

  /** The class `[\w-._~!$&'()*+,;=]` of the dtn regular expression. */
  predicate IsNameByte(b: byte) {
    || 0x30 <= b <= 0x39 || 0x41 <= b <= 0x5A || 0x61 <= b <= 0x7A || b == 0x5F
    || b == DASH || b == DOT || b == 0x7E || b == 0x21 || b == 0x24 || 0x26 <= b <= 0x2C || b == 0x3B || b == 0x3D
  }

  predicate IsName(s: seq<byte>) {
    s != [] && forall k :: 0 <= k < |s| ==> IsNameByte(s[k])
  }

  /** The scheme-specific part of a dtn URI that is not dtn:none. */
  function Ssp(nodeName: seq<byte>, demux: seq<byte>): seq<byte> {
    [SLASH, SLASH] + nodeName + [SLASH] + demux
  }

  /** What NewEndpointID accepts: the exact condition under which an endpoint survives both of its text forms. */
  predicate WellFormed(e: EndpointID) {
    match e
    case DtnNone => true
    case Dtn(nodeName, demux) => IsName(nodeName) && NEWLINE !in demux
    case Ipn(node, service) => node >= 1 && service >= 1
  }

  /** The anchored expression: SSP is exactly `//name/demux`. */
  function ParseDtnSsp(ssp: seq<byte>): (e: Option<EndpointID>)
    ensures e.Some? ==> WellFormed(e.value) && !e.value.Ipn?
    ensures e.Some? && e.value.Dtn? ==> Ssp(e.value.nodeName, e.value.demux) == ssp
  {
    if ssp == NONE_SSP then Some(DtnNone)
    else if |ssp| < 2 || ssp[..2] != [SLASH, SLASH] then None
    else
      var s := ssp[2..];
      var i := IndexOf(s, SLASH);
      if i == |s| || !IsName(s[..i]) || NEWLINE in s[i + 1..] then None
      else
        assert s == s[..i] + [SLASH] + s[i + 1..];
        Some(Dtn(s[..i], s[i + 1..]))
  }

  /** A match of the dtn expression that starts at `i` and whose node name ends at `j`. */
  predicate MatchesAt(s: seq<byte>, i: nat, j: nat) {
    && i + 2 < j < |s|
    && s[i] == SLASH && s[i + 1] == SLASH
    && IsName(s[i + 2..j])
    && s[j] == SLASH
  }

  /** The validity check does not anchor the expression, so it only looks for a match somewhere. */
  predicate CheckValid(e: EndpointID) {
    match e
    case DtnNone => true
    case Dtn(nodeName, demux) =>
      var s := Ssp(nodeName, demux);
      exists i: nat, j: nat | 0 <= i < |s| && 0 <= j < |s| :: MatchesAt(s, i, j)
    case Ipn(node, service) => node >= 1 && service >= 1
  }

  lemma WellFormedIsValid(e: EndpointID)
    requires WellFormed(e)
    ensures CheckValid(e)
  {
    if e.Dtn? {
      var s := Ssp(e.nodeName, e.demux);
      assert s[2..2 + |e.nodeName|] == e.nodeName;
      assert MatchesAt(s, 0, 2 + |e.nodeName|);
    }
  }

  lemma ParseOwnSsp(nodeName: seq<byte>, demux: seq<byte>)
    ensures ParseDtnSsp(Ssp(nodeName, demux)) == Some(Dtn(nodeName, demux)) <==> WellFormed(Dtn(nodeName, demux))
  {
    hide IndexOf;
    var ssp := Ssp(nodeName, demux);
    assert ssp[0] == SLASH && ssp[..2] == [SLASH, SLASH];
    if WellFormed(Dtn(nodeName, demux)) {
      var s := ssp[2..];
      assert s == nodeName + [SLASH] + demux;
      assert !IsNameByte(SLASH);
      IndexOfFirst(nodeName, SLASH, demux);
      assert s[..|nodeName|] == nodeName && s[|nodeName| + 1..] == demux;
    }
  }

  // ---------------------------------------------------------------- URIs

  /** String() of an endpoint. */
  function Uri(e: EndpointID): seq<byte> {
    match e
    case DtnNone => DTN_PREFIX + NONE_SSP
    case Dtn(nodeName, demux) => DTN_PREFIX + Ssp(nodeName, demux)
    case Ipn(node, service) => IPN_PREFIX + (Decimal(node) + [DOT] + Decimal(service))
  }

  function ParseIpn(s: seq<byte>): (e: Option<EndpointID>)
    ensures e.Some? ==> e.value.Ipn? && WellFormed(e.value)
  {
    var i := IndexOf(s, DOT);
    if i == |s| then None
    else
      var node :- ParseUint(s[..i]);
      var service :- ParseUint(s[i + 1..]);
      if CheckValid(Ipn(node, service)) then Some(Ipn(node, service)) else None
  }

  function NewEndpointID(uri: seq<byte>): (e: Option<EndpointID>)
    ensures e.Some? ==> WellFormed(e.value)
  {
    if |uri| < 5 || NEWLINE in uri then None
    else if uri[..4] == DTN_PREFIX then ParseDtnSsp(uri[4..])
    else if uri[..4] == IPN_PREFIX then ParseIpn(uri[4..])
    else None
  }

  /** Printing and parsing are inverse on exactly the well-formed endpoints. */
  lemma UriRoundTrip(e: EndpointID)
    ensures NewEndpointID(Uri(e)) == Some(e) <==> WellFormed(e)
  {
    hide IndexOf, Decimal, DigitsValue, ParseDtnSsp;
    match e
    case DtnNone =>
      assert Uri(e)[4..] == NONE_SSP;
      assert ParseDtnSsp(NONE_SSP) == Some(DtnNone) by { ParseNone(); }
    case Dtn(nodeName, demux) =>
      assert Uri(e)[4..] == Ssp(nodeName, demux);
      ParseOwnSsp(nodeName, demux);
    case Ipn(node, service) =>
      assert Uri(e)[4..] == Decimal(node) + [DOT] + Decimal(service);
      ParseOwnIpn(node, service);
  }

  lemma ParseNone()
    ensures ParseDtnSsp(NONE_SSP) == Some(DtnNone)
  {
  }

  lemma ParseOwnIpn(node: uint64, service: uint64)
    ensures var s := Decimal(node) + [DOT] + Decimal(service);
            NEWLINE !in s && (ParseIpn(s) == Some(Ipn(node, service)) <==> WellFormed(Ipn(node, service)))
  {
    hide IndexOf, Decimal, DigitsValue;
    var a, b := Decimal(node), Decimal(service);
    var s := a + [DOT] + b;
    DecimalRoundTrip(node);
    DecimalRoundTrip(service);
    assert forall k :: 0 <= k < |a| ==> IsDigit(a[k]);
    assert forall k :: 0 <= k < |b| ==> IsDigit(b[k]);
    IndexOfFirst(a, DOT, b);
    assert s[..|a|] == a && s[|a| + 1..] == b;
  }

  /** The URIs that name an endpoint: its own one, and for ipn numbers also those with leading zeros. */
  ghost predicate Names(uri: seq<byte>, e: EndpointID) {
    if e.Ipn? then exists a, b :: SpellsIpn(uri, e, a, b) else uri == Uri(e)
  }

  predicate SpellsIpn(uri: seq<byte>, e: EndpointID, a: seq<byte>, b: seq<byte>)
    requires e.Ipn?
  {
    uri == IPN_PREFIX + (a + [DOT] + b) && ParseUint(a) == Some(e.node) && ParseUint(b) == Some(e.service)
  }

  lemma ParsedIpnIsSpelled(s: seq<byte>, e: EndpointID)
    requires e.Ipn? && ParseIpn(s) == Some(e)
    ensures exists a, b :: SpellsIpn(IPN_PREFIX + s, e, a, b)
  {
    hide IndexOf, DigitsValue, ParseUint;
    var i := IndexOf(s, DOT);
    assert s == s[..i] + [DOT] + s[i + 1..];
    assert SpellsIpn(IPN_PREFIX + s, e, s[..i], s[i + 1..]);
  }

  lemma SpelledIpnIsParsed(s: seq<byte>, e: EndpointID, a: seq<byte>, b: seq<byte>)
    requires e.Ipn? && WellFormed(e) && SpellsIpn(IPN_PREFIX + s, e, a, b)
    ensures ParseIpn(s) == Some(e) && NEWLINE !in s
  {
    hide IndexOf, DigitsValue;
    assert (IPN_PREFIX + s)[4..] == s && (IPN_PREFIX + (a + [DOT] + b))[4..] == a + [DOT] + b;
    assert forall k :: 0 <= k < |a| ==> IsDigit(a[k]);
    assert forall k :: 0 <= k < |b| ==> IsDigit(b[k]);
    IndexOfFirst(a, DOT, b);
    assert s[..|a|] == a && s[|a| + 1..] == b;
  }

  lemma ParseDtnSspExactly(ssp: seq<byte>, e: EndpointID)
    requires !e.Ipn?
    ensures ParseDtnSsp(ssp) == Some(e) <==> WellFormed(e) && DTN_PREFIX + ssp == Uri(e)
  {
    hide IndexOf;
    assert (DTN_PREFIX + ssp)[4..] == ssp;
    if e.Dtn? {
      assert Uri(e)[4..] == Ssp(e.nodeName, e.demux);
      ParseOwnSsp(e.nodeName, e.demux);
    } else {
      assert Uri(e)[4..] == NONE_SSP;
    }
  }

  /** The URIs that are accepted are exactly those of well-formed endpoints. */
  lemma NewEndpointIDExactly(uri: seq<byte>, e: EndpointID)
    ensures NewEndpointID(uri) == Some(e) <==> WellFormed(e) && Names(uri, e)
  {
    hide IndexOf, DigitsValue, ParseDtnSsp, ParseIpn, ParseUint;
    if e.Ipn? {
      if |uri| >= 4 && uri[..4] == IPN_PREFIX {
        assert uri == IPN_PREFIX + uri[4..];
        if ParseIpn(uri[4..]) == Some(e) {
          ParsedIpnIsSpelled(uri[4..], e);
        }
        if WellFormed(e) && Names(uri, e) {
          var a, b :| SpellsIpn(uri, e, a, b);
          SpelledIpnIsParsed(uri[4..], e, a, b);
        }
      }
    } else if |uri| >= 4 && uri[..4] == DTN_PREFIX {
      assert uri == DTN_PREFIX + uri[4..];
      ParseDtnSspExactly(uri[4..], e);
    }
    if WellFormed(e) && Names(uri, e) && !e.Ipn? {
      UriRoundTrip(e);
    }
  }

  // ---------------------------------------------------------------- CBOR

  function SchemeNo(e: EndpointID): uint64 {
    if e.Ipn? then IPN_SCHEME_NO else DTN_SCHEME_NO
  }

  function EncodeSsp(e: EndpointID): seq<byte> {
    match e
    case DtnNone => UInt(0)
    case Dtn(nodeName, demux) => TextString(Ssp(nodeName, demux))
    case Ipn(node, service) => ArrayHead(2) + (UInt(node) + UInt(service))
  }

  function EncodeEndpoint(e: EndpointID): Option<seq<byte>> {
    if CheckValid(e) then Some(ArrayHead(2) + UInt(SchemeNo(e)) + EncodeSsp(e)) else None
  }

  /** The text form must not spell dtn:none. */
  function DtnFromText(ssp: seq<byte>): (e: Option<EndpointID>)
    ensures e.Some? <==> ParseDtnSsp(ssp).Some? && ParseDtnSsp(ssp).value != DtnNone
    ensures e.Some? ==> e == ParseDtnSsp(ssp)
  {
    var e :- ParseDtnSsp(ssp);
    if e == DtnNone then None else Some(e)
  }

  function DecodeDtnSsp(s: seq<byte>): (p: Parsed<EndpointID>)
    ensures p.Within(s)
  {
    var (head, s1) :- ReadMajors(s);
    if head.0 == MAJOR_UINT then Ok(DtnNone, s1)
    else if head.0 == MAJOR_TEXT then
      var (ssp, s2) :- ReadRaw(head.1, s1);
      var e := DtnFromText(ssp);
      if e.Some? then Ok(e.value, s2) else Fail
    else Fail
  }

  function DecodeIpnSsp(s: seq<byte>): (p: Parsed<EndpointID>)
    ensures p.Within(s)
  {
    var (n, s1) :- ReadArrayLength(s);
    if n != 2 then Fail
    else
      var (numbers, s2) :- ReadPair(s1);
      Ok(Ipn(numbers.0, numbers.1), s2)
  }

  function DecodeScheme(s: seq<byte>): (p: Parsed<uint64>)
    ensures p.Within(s)
  {
    var (n, s1) :- ReadArrayLength(s);
    if n != 2 then Fail else ReadUInt(s1)
  }

  function DecodeEndpoint(s: seq<byte>): (p: Parsed<EndpointID>)
    ensures p.Within(s)
  {
    var (scheme, s1) :- DecodeScheme(s);
    if scheme == DTN_SCHEME_NO then DecodeDtnSsp(s1)
    else if scheme == IPN_SCHEME_NO then DecodeIpnSsp(s1)
    else Fail
  }

  ghost predicate Sized(e: EndpointID) {
    e.Dtn? ==> |Ssp(e.nodeName, e.demux)| < TWO_TO_THE_64
  }

  lemma SspRoundTrip(e: EndpointID, t: seq<byte>)
    requires Sized(e) && CheckValid(e)
    ensures !e.Ipn? ==> (DecodeDtnSsp(EncodeSsp(e) + t) == Ok(e, t) <==> WellFormed(e))
    ensures !e.Ipn? ==> var p := DecodeDtnSsp(EncodeSsp(e) + t); !p.Break? && (p.Ok? ==> p.rest == t)
    ensures e.Ipn? ==> DecodeIpnSsp(EncodeSsp(e) + t) == Ok(e, t)
  {
    hide Head, ReadMajors, ReadPair, ParseDtnSsp;
    match e
    case DtnNone =>
      ReadHead(MAJOR_UINT, 0, t);
    case Dtn(nodeName, demux) =>
      var ssp := Ssp(nodeName, demux);
      Associative(Head(MAJOR_TEXT, |ssp|), ssp, t);
      ReadHead(MAJOR_TEXT, |ssp|, ssp + t);
      assert ReadRaw(|ssp|, ssp + t) == Ok(ssp, t);
      ParseOwnSsp(nodeName, demux);
    case Ipn(node, service) =>
      Associative(ArrayHead(2), UInt(node) + UInt(service), t);
      ReadArrayHead(2, (UInt(node) + UInt(service)) + t);
      ReadPairHeads(node, service, t);
  }

  /** An endpoint that encodes at all is read back exactly when NewEndpointID would have accepted it. */
  lemma EndpointRoundTrip(e: EndpointID, t: seq<byte>)
    requires Sized(e) && CheckValid(e)
    ensures var p := DecodeEndpoint(EncodeEndpoint(e).value + t);
            !p.Break? && (p == Ok(e, t) <==> WellFormed(e)) && (p.Ok? ==> p.rest == t)
  {
    hide Head, ReadMajors, DecodeDtnSsp, DecodeIpnSsp, EncodeSsp, ReadExpected;
    var ssp := EncodeSsp(e) + t;
    assert EncodeEndpoint(e).value + t == ArrayHead(2) + (UInt(SchemeNo(e)) + ssp);
    ReadArrayHead(2, UInt(SchemeNo(e)) + ssp);
    ReadUIntHead(SchemeNo(e), ssp);
    SspRoundTrip(e, t);
  }

  /** A slash in a node name passes the validity check, so such an endpoint encodes, but is read back as another one. */
  lemma SlashInNodeNameIsLost()
    ensures var e := Dtn([0x61, SLASH, 0x62], []);
            CheckValid(e) && Sized(e) && DecodeEndpoint(EncodeEndpoint(e).value) != Ok(e, [])
  {
    var e := Dtn([0x61, SLASH, 0x62], []);
    assert Ssp(e.nodeName, e.demux) == [SLASH, SLASH, 0x61, SLASH, 0x62, SLASH];
    assert IsNameByte(0x61) && Ssp(e.nodeName, e.demux)[2..3] == [0x61];
    assert MatchesAt(Ssp(e.nodeName, e.demux), 0, 3);
    assert !IsNameByte(e.nodeName[1]);
    EndpointRoundTrip(e, []);
    assert EncodeEndpoint(e).value + [] == EncodeEndpoint(e).value;
  }

  // ---------------------------------------------------------------- methods

  method MarshalSsp(e: EndpointID, w: Writer)
    modifies w
    ensures w.Appended(EncodeSsp(e))
  {
    hide UInt, ArrayHead, TextString, Ssp;
    match e {
      case DtnNone =>
        w.Write(UInt(0));
      case Dtn(nodeName, demux) =>
        w.Write(TextString(Ssp(nodeName, demux)));
      case Ipn(node, service) =>
        w.Write(ArrayHead(2));
        w.Write(UInt(node));
        w.Write(UInt(service));
    }
  }

  method MarshalEndpoint(e: EndpointID, w: Writer) returns (ok: bool)
    modifies w
    ensures ok <==> EncodeEndpoint(e).Some?
    ensures ok ==> w.Appended(EncodeEndpoint(e).value)
    ensures w.copying == old(w.copying)
  {
    hide CheckValid, UInt, ArrayHead, EncodeSsp;
    if !CheckValid(e) {
      return false;
    }
    w.Write(ArrayHead(2));
    w.Write(UInt(SchemeNo(e)));
    MarshalSsp(e, w);
    return true;
  }

  method UnmarshalDtnSsp(r: Reader) returns (e: Outcome<EndpointID>)
    modifies r
    ensures e == DecodeDtnSsp(old(r.rest)).Outcome()
    ensures !e.Failed? ==> r.rest == DecodeDtnSsp(old(r.rest)).rest
    ensures r.Advanced()
  {
    hide DtnFromText, ParseDtnSsp, Cbor.ReadMajors, IsSuffix, Consumed;
    var head :- r.ReadMajors();
    if head.0 == MAJOR_UINT {
      return Got(DtnNone);
    } else if head.0 != MAJOR_TEXT {
      return Failed;
    }
    label L:
    var raw := r.ReadRaw(head.1);
    SuffixTransitive(r.rest, old@L(r.rest), old(r.rest));
    var ssp :- raw;
    var parsed := DtnFromText(ssp);
    return if parsed.Some? then Got(parsed.value) else Failed;
  }

  method UnmarshalIpnSsp(r: Reader) returns (e: Outcome<EndpointID>)
    modifies r
    ensures e == DecodeIpnSsp(old(r.rest)).Outcome()
    ensures !e.Failed? ==> r.rest == DecodeIpnSsp(old(r.rest)).rest
    ensures r.Advanced()
  {
    hide ReadExpected, Cbor.ReadPair, IsSuffix, Consumed;
    var n :- r.ReadArrayLength();
    if n != 2 {
      return Failed;
    }
    label L:
    var second := r.ReadPair();
    SuffixTransitive(r.rest, old@L(r.rest), old(r.rest));
    var numbers :- second;
    return Got(Ipn(numbers.0, numbers.1));
  }

  method UnmarshalScheme(r: Reader) returns (scheme: Outcome<uint64>)
    modifies r
    ensures scheme == DecodeScheme(old(r.rest)).Outcome()
    ensures !scheme.Failed? ==> r.rest == DecodeScheme(old(r.rest)).rest
    ensures r.Advanced()
  {
    hide ReadExpected, IsSuffix, Consumed;
    var n :- r.ReadArrayLength();
    if n != 2 {
      return Failed;
    }
    label L:
    scheme := r.ReadUInt();
    SuffixTransitive(r.rest, old@L(r.rest), old(r.rest));
  }

  method UnmarshalEndpoint(r: Reader) returns (e: Outcome<EndpointID>)
    modifies r
    ensures e == DecodeEndpoint(old(r.rest)).Outcome()
    ensures !e.Failed? ==> r.rest == DecodeEndpoint(old(r.rest)).rest
    ensures r.Advanced()
  {
    hide DecodeScheme, DecodeDtnSsp, DecodeIpnSsp, IsSuffix, Consumed;
    var scheme :- UnmarshalScheme(r);
    label L:
    if scheme == DTN_SCHEME_NO {
      e := UnmarshalDtnSsp(r);
    } else if scheme == IPN_SCHEME_NO {
      e := UnmarshalIpnSsp(r);
    } else {
      return Failed;
    }
    SuffixTransitive(r.rest, old@L(r.rest), old(r.rest));
  }
}
