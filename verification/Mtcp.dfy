/** The byte stream of the minimal TCP convergence layer (draft-ietf-dtn-mtcpcl-01): bundles as byte strings, with empty
    byte strings as keepalives and probes between them. */
module Mtcp {
  import opened Bytes
  import opened Cbor
  import opened Streams
  import opened Blocks
  import opened PrimaryCodec
  import opened BundleCodec
  import opened Bundles
  import opened ReadBack

  /** What a client writes under its lock: a keepalive, or a bundle and an empty probe. */
  datatype Write = Keepalive | Send(bundle: Bundle)

  /** The frame of a bundle whose encoding is `s`. */
  function Frame(s: seq<byte>): seq<byte> {
    Head(MAJOR_BYTES, Length(s)) + s
  }

  function Written(env: Env, w: Write): Option<seq<byte>> {
    match w
    case Keepalive => Some(Head(MAJOR_BYTES, 0))
    case Send(b) =>
      var s :- EncodeBundle(env, b);
      Some(Frame(s) + Head(MAJOR_BYTES, 0))
  }

  /** The stream of a connection. A bundle that cannot be encoded ends it. */
  function Stream(env: Env, ws: seq<Write>): seq<byte> {
    if ws == [] then []
    else
      var s := Written(env, ws[0]);
      if s.Some? then s.value + Stream(env, ws[1..]) else []
  }

  /** The bundles the server hands on. The announced length is only compared to 0; reading stops at the first error. */
  function Received(env: Env, s: seq<byte>): seq<Bundle>
    decreases |s|
  {
    var p := ReadByteStringLen(s);
    if !p.Ok? then []
    else if p.value == 0 then Received(env, p.rest)
    else
      var q := DecodeBundle(env, p.rest);
      if q.Ok? then [q.value] + Received(env, q.rest) else []
  }

  /** The bundle of a write, with its checksums filled in. */
  function Given(env: Env, w: Write): seq<Bundle>
    requires Written(env, w).Some?
  {
    if w.Send? then [FilledBundle(env, w.bundle)] else []
  }

  /** The bundles that were sent. */
  function Sent(env: Env, ws: seq<Write>): seq<Bundle> {
    if ws == [] || Written(env, ws[0]).None? then [] else Given(env, ws[0]) + Sent(env, ws[1..])
  }

  /** The bundles handed on of those that were sent, as the reader gets them: it stops at one that it does not get. */
  function HandedOn(env: Env, ws: seq<Write>): seq<Bundle> {
    if ws == [] || Written(env, ws[0]).None? then []
    else if ws[0].Keepalive? then HandedOn(env, ws[1..])
    else
      var r := BundleRead(env, ws[0].bundle);
      if r.Some? then [r.value] + HandedOn(env, ws[1..]) else []
  }

  /** The reader gets all bundles, as they were sent or not. */
  predicate AllRead(env: Env, ws: seq<Write>) {
    || ws == [] || Written(env, ws[0]).None?
    || ((ws[0].Send? ==> BundleRead(env, ws[0].bundle).Some?) && AllRead(env, ws[1..]))
  }

  /** All bundles that are sent are readable and valid. */
  ghost predicate AllSound(env: Env, ws: seq<Write>) {
    || ws == [] || Written(env, ws[0]).None?
    || ((ws[0].Send? ==> ReadableBundle(env, ws[0].bundle) && CheckBundle(env, ws[0].bundle)) && AllSound(env, ws[1..]))
  }

  /** Lengths that a byte string can have. */
  ghost predicate Sizable(env: Env, b: Bundle) {
    SizedBundle(b) && (EncodeBundle(env, b).Some? ==> |EncodeBundle(env, b).value| < TWO_TO_THE_64)
  }

  lemma ReceivedKeepalive(env: Env, t: seq<byte>)
    ensures Received(env, Head(MAJOR_BYTES, 0) + t) == Received(env, t)
  {
    hide Head, ReadExpected, DecodeBundle;
    ReadBytesHead(0, t);
  }

  /** A frame yields what the reader makes of its bundle, and reading goes on right behind it; the announced length is not
      used. A bundle the reader does not get ends the connection. */
  lemma ReceivedFrame(env: Env, b: Bundle, t: seq<byte>)
    requires Sizable(env, b) && EncodeBundle(env, b).Some?
    ensures Received(env, Frame(EncodeBundle(env, b).value) + t)
         == if BundleRead(env, b).Some? then [BundleRead(env, b).value] + Received(env, t) else []
    ensures BundleRead(env, b) == Some(FilledBundle(env, b)) <==> ReadableBundle(env, b) && CheckBundle(env, b)
  {
    hide Head, ReadExpected, DecodeBundle, EncodeBundle, FilledBundle, SizedBundle, ReadableBundle, CheckBundle, BundleRead;
    var s := EncodeBundle(env, b).value;
    assert s != [] by { NotEmpty(env, b); }
    Associative(Head(MAJOR_BYTES, |s|), s, t);
    ReadBytesHead(|s|, s + t);
    BundleIsRead(env, b, t);
  }

  lemma NotEmpty(env: Env, b: Bundle)
    requires EncodeBundle(env, b).Some?
    ensures EncodeBundle(env, b).value != []
  {
    hide EncodePrimary, EncodeBlocks;
  }

  lemma ReceivedSend(env: Env, b: Bundle, t: seq<byte>)
    requires Written(env, Send(b)).Some? && Sizable(env, b)
    ensures Received(env, Written(env, Send(b)).value + t)
         == if BundleRead(env, b).Some? then [BundleRead(env, b).value] + Received(env, t) else []
  {
    hide Frame, Received, EncodeBundle, BundleRead, Sizable, Head;
    ReceivedKeepalive(env, t);
    Associative(Frame(EncodeBundle(env, b).value), Head(MAJOR_BYTES, 0), t);
    ReceivedFrame(env, b, Head(MAJOR_BYTES, 0) + t);
  }

  /** Whatever is sent, with keepalives at any frame boundary: the server hands on what the reader makes of each bundle, in
      order, and goes on with whatever follows in the stream unless it does not get one. */
  lemma {:induction false} StreamIsRead(env: Env, ws: seq<Write>, t: seq<byte>)
    requires forall w :: w in ws && w.Send? ==> Sizable(env, w.bundle)
    ensures Received(env, Stream(env, ws) + t) == HandedOn(env, ws) + if AllRead(env, ws) then Received(env, t) else []
  {
    hide Received, Written, BundleRead, Sizable;
    if ws == [] || Written(env, ws[0]).None? {
      assert Stream(env, ws) + t == t && HandedOn(env, ws) + Received(env, t) == Received(env, t);
    } else {
      var w := ws[0];
      assert w in ws && forall x :: x in ws[1..] ==> x in ws;
      StreamIsRead(env, ws[1..], t);
      Associative(Written(env, w).value, Stream(env, ws[1..]), t);
      if w.Keepalive? {
        KeepaliveWritten(env);
        ReceivedKeepalive(env, Stream(env, ws[1..]) + t);
      } else {
        ReceivedSend(env, w.bundle, Stream(env, ws[1..]) + t);
      }
    }
  }

  lemma KeepaliveWritten(env: Env)
    ensures Written(env, Keepalive) == Some(Head(MAJOR_BYTES, 0))
  {
  }

  /** The server hands on exactly the bundles sent, in order, and goes on with whatever follows, exactly if all of them are
      readable and valid. */
  lemma StreamRoundTrip(env: Env, ws: seq<Write>, t: seq<byte>)
    requires forall w :: w in ws && w.Send? ==> Sizable(env, w.bundle)
    ensures AllSound(env, ws) ==> Received(env, Stream(env, ws) + t) == Sent(env, ws) + Received(env, t)
    ensures HandedOn(env, ws) == Sent(env, ws) && AllRead(env, ws) <==> AllSound(env, ws)
  {
    hide Received, Stream, HandedOn, Sent, AllRead, AllSound;
    StreamIsRead(env, ws, t);
    SentExactly(env, ws);
  }

  lemma {:induction false} SentExactly(env: Env, ws: seq<Write>)
    requires forall w :: w in ws && w.Send? ==> Sizable(env, w.bundle)
    ensures HandedOn(env, ws) == Sent(env, ws) && AllRead(env, ws) <==> AllSound(env, ws)
  {
    hide BundleRead, SizedBundle, EncodeBundle, ReadableBundle, CheckBundle, FilledBundle;
    if ws != [] && Written(env, ws[0]).Some? {
      var w := ws[0];
      assert w in ws && forall x :: x in ws[1..] ==> x in ws;
      SentExactly(env, ws[1..]);
      if w.Keepalive? {
        assert [] + Sent(env, ws[1..]) == Sent(env, ws[1..]);
      } else {
        BundleIsRead(env, w.bundle, []);
        if BundleRead(env, w.bundle).Some? {
          ConsInjective(BundleRead(env, w.bundle).value, HandedOn(env, ws[1..]), FilledBundle(env, w.bundle), Sent(env, ws[1..]));
        }
      }
    }
  }

  lemma InOrder(a: seq<Bundle>, b: seq<Bundle>, c: seq<Bundle>)
    ensures a + (b + c) == (a + b) + c
  {
  }

  // ---------------------------------------------------------------- methods

  /** Write a bundle to the connection, and an empty byte string to see whether it is still alive. */
  method SendBundle(env: Env, b: MutableBundle, conn: Writer) returns (ok: bool)
    requires b.payload.Some?
    modifies b, conn
    ensures ok <==> EncodeBundle(env, old(b.Value())).Some?
    ensures conn.data == old(conn.data) + if ok then Written(env, Send(old(b.Value()))).value else []
  {
    hide EncodeBundle, IsStamped, Head, Written;
    ghost var bundle := b.Value();
    var buff := new Writer();
    ok := b.MarshalCbor(env, buff);
    if !ok {
      assert conn.data + [] == conn.data;
      return;
    }
    WrittenBytes(env, bundle, conn.data, buff.data);
    conn.Write(Head(MAJOR_BYTES, Length(buff.data)));
    conn.Write(buff.data);
    conn.Write(Head(MAJOR_BYTES, 0));
  }

  lemma WrittenBytes(env: Env, b: Bundle, before: seq<byte>, s: seq<byte>)
    requires EncodeBundle(env, b).Some? && s == [] + EncodeBundle(env, b).value
    ensures Written(env, Send(b)).Some?
    ensures before + Head(MAJOR_BYTES, Length(s)) + s + Head(MAJOR_BYTES, 0) == before + Written(env, Send(b)).value
  {
    hide EncodeBundle, Head, Length;
    assert s == EncodeBundle(env, b).value;
    var head, probe := Head(MAJOR_BYTES, Length(s)), Head(MAJOR_BYTES, 0);
    assert before + head + s + probe == before + ((head + s) + probe);
  }

  /** The server's loop for one connection: the bundles handed to the receive callback. */
  method HandleSender(env: Env, conn: Reader) returns (bundles: seq<Bundle>)
    requires !conn.teeing
    modifies conn
    ensures bundles == Received(env, old(conn.rest))
  {
    hide ReadExpected, DecodeBundle;
    bundles := [];
    while true
      invariant !conn.teeing
      invariant Received(env, old(conn.rest)) == bundles + Received(env, conn.rest)
      decreases |conn.rest|
    {
      var n := conn.ReadByteStringLen();
      if !n.Got? {
        return;
      } else if n.value == 0 {
        continue;
      }
      var b := new MutableBundle(EMPTY_PRIMARY, [], None);
      ghost var s := conn.rest;
      UnmarshalNew(env, s);
      var ok := b.UnmarshalCbor(env, conn);
      if !ok {
        return;
      }
      InOrder(bundles, [b.Value()], Received(env, conn.rest));
      bundles := bundles + [b.Value()];
    }
  }
}
