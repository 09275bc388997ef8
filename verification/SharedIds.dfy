/** Two Meshtastic bundles under one packet ID: when their chunks can be put together wrongly. */
module SharedIds {
  import opened Bytes
  import opened Meshtastic

  /** A chunk of the first or of the second bundle arrives, or old buffers are discarded. */
  datatype Event = Packet(first: bool, i: nat, now: int) | Discard(now: int)

  datatype Receiver = Receiver(reassembly: Reassembly, delivered: seq<seq<byte>>)

  const NEW := Receiver(map[], [])

  /** The chunk a packet carries, as the receiver reads it. */
  function PartsOf(id: uint32, s: seq<byte>, i: nat): Parts
    requires i < |Chunks(s)|
  {
    Parts(id, i % 0x100, |Chunks(s)| % 0x100, Chunks(s)[i])
  }

  lemma PartsAreRead(id: uint32, s: seq<byte>, i: nat)
    requires i < |Packets(id, s)|
    ensures Parse(Packets(id, s)[i]) == Some(PartsOf(id, s, i))
  {
    hide Chunks, Parse;
    HeaderRoundTrip(id, i, |Packets(id, s)|, Chunks(s)[i]);
  }

  function Step(id: uint32, a: seq<byte>, b: seq<byte>, r: Receiver, e: Event): Receiver {
    match e
    case Packet(first, i, now) =>
      var s := if first then a else b;
      if i < |Packets(id, s)| then
        var (reassembly, full) := Handle(r.reassembly, Packets(id, s)[i], now);
        Receiver(reassembly, r.delivered + if full.Some? then [full.value] else [])
      else r
    case Discard(now) => r.(reassembly := Clean(r.reassembly, now))
  }

  function Run(id: uint32, a: seq<byte>, b: seq<byte>, events: seq<Event>): Receiver {
    if events == [] then NEW else Step(id, a, b, Run(id, a, b, events[..|events| - 1]), events[|events| - 1])
  }

  /** In every run, only the two bundles are delivered. */
  ghost predicate OnlyOriginals(id: uint32, a: seq<byte>, b: seq<byte>) {
    forall events, k :: 0 <= k < |Run(id, a, b, events).delivered| ==> Run(id, a, b, events).delivered[k] in {a, b}
  }

  ghost predicate AtMostOneDiffers(ca: seq<seq<byte>>, cb: seq<seq<byte>>)
    requires |ca| == |cb|
  {
    forall p, q :: 0 <= p < q < |ca| ==> ca[p] == cb[p] || ca[q] == cb[q]
  }

  /** Equally many chunks, of which at most one differs; or a single chunk that is the other bundle's first one. */
  ghost predicate Compatible(a: seq<byte>, b: seq<byte>)
    requires a != [] && b != []
  {
    var ca, cb := Chunks(a), Chunks(b);
    if |ca| == |cb| then AtMostOneDiffers(ca, cb) else (|ca| == 1 || |cb| == 1) && ca[0] == cb[0]
  }

  // ---------------------------------------------------------------- compatible bundles

  /** Every chunk of the buffer is one of the two bundles' at its position. */
  ghost predicate Mixed(ca: seq<seq<byte>>, cb: seq<seq<byte>>, b: Buffer)
    requires |ca| == |cb|
  {
    b.total == |ca| && forall x :: x in b.chunks ==> x < |ca| && (b.chunks[x] == ca[x] || b.chunks[x] == cb[x])
  }

  ghost predicate GoodBuffer(a: seq<byte>, b: seq<byte>, buffer: Buffer) {
    if |Chunks(a)| == |Chunks(b)| then Mixed(Chunks(a), Chunks(b), buffer)
    else Genuine(if |Chunks(a)| > |Chunks(b)| then a else b, buffer)
  }

  ghost predicate Good(id: uint32, a: seq<byte>, b: seq<byte>, r: Receiver) {
    && (forall x :: x in r.reassembly ==> x == id && GoodBuffer(a, b, r.reassembly[x]))
    && (forall k :: 0 <= k < |r.delivered| ==> r.delivered[k] in {a, b})
  }

  lemma ChunksInOrder(chunks: map<byte, seq<byte>>, n: nat) returns (cs: seq<seq<byte>>)
    requires n <= 0x100 && forall i: byte :: i < n ==> i in chunks
    ensures |cs| == n && (forall i :: 0 <= i < n ==> cs[i] == chunks[i]) && Collected(chunks, n) == Concat(cs)
  {
    cs := seq(n, i requires 0 <= i < n => chunks[i]);
    CollectedAll(chunks, cs, n);
    assert cs[..n] == cs;
  }

  lemma MixedIsOriginal(a: seq<byte>, b: seq<byte>, buffer: Buffer)
    requires |Chunks(a)| == |Chunks(b)| <= 0xFF && AtMostOneDiffers(Chunks(a), Chunks(b))
    requires Mixed(Chunks(a), Chunks(b), buffer) && Complete(buffer)
    ensures Collected(buffer.chunks, buffer.total) in {a, b}
  {
    hide Chunks, Collected, Concat;
    var ca, cb, n := Chunks(a), Chunks(b), |Chunks(a)|;
    KeysBelow(buffer.chunks, n);
    AllKeys(buffer.chunks, n);
    var cs := ChunksInOrder(buffer.chunks, n);
    ConcatChunks(a);
    ConcatChunks(b);
    if cs != ca {
      var p :| 0 <= p < n && cs[p] != ca[p];
      assert forall q :: 0 <= q < n ==> cs[q] == cb[q];
      assert cs == cb;
    }
  }

  lemma StoredMixed(r: Reassembly, id: uint32, a: seq<byte>, b: seq<byte>, first: bool, i: nat, now: int)
    requires |Chunks(a)| == |Chunks(b)| <= 0xFF && i < |Chunks(a)| && (id in r ==> Mixed(Chunks(a), Chunks(b), r[id]))
    ensures Mixed(Chunks(a), Chunks(b), Stored(r, PartsOf(id, if first then a else b, i), now))
  {
    hide Chunks;
  }

  lemma StoredGenuine(r: Reassembly, id: uint32, long: seq<byte>, p: Parts, now: int)
    requires id in r ==> Genuine(long, r[id])
    requires p.id == id && IsChunk(Chunks(long), p.index, p.payload) && (id !in r ==> p.total == |Chunks(long)| % 0x100)
    ensures Genuine(long, Stored(r, p, now))
  {
    hide Chunks, IsChunk;
  }

  /** A single chunk is complete by itself, or replaces an equal one. */
  lemma TakeUnequal(r: Reassembly, id: uint32, long: seq<byte>, short: seq<byte>, isShort: bool, i: nat, now: int)
    requires |Chunks(short)| == 1 < |Chunks(long)| <= 0xFF && Chunks(short)[0] == Chunks(long)[0]
    requires (id in r ==> Genuine(long, r[id])) && i < |Chunks(if isShort then short else long)|
    ensures var p := PartsOf(id, if isShort then short else long, i);
            var b := Stored(r, p, now);
            if Complete(b) then Collected(b.chunks, b.total) in {short, long} else Genuine(long, b)
  {
    hide Chunks, Genuine, Collected;
    var p := PartsOf(id, if isShort then short else long, i);
    var b := Stored(r, p, now);
    if isShort && id !in r {
      SingleChunk(short, b);
    } else {
      assert IsChunk(Chunks(long), p.index, p.payload);
      StoredGenuine(r, id, long, p, now);
      if Complete(b) {
        CompleteIsWhole(long, b);
      }
    }
  }

  lemma SingleChunk(s: seq<byte>, b: Buffer)
    requires |Chunks(s)| == 1 && b.chunks == map[0 := Chunks(s)[0]] && b.total == 1
    ensures Complete(b) && Collected(b.chunks, b.total) == s
  {
    hide Chunks;
    ConcatChunks(s);
    assert Chunks(s)[..1] == Chunks(s);
    CollectedAll(b.chunks, Chunks(s), 1);
    assert b.chunks.Keys == {0};
    assert |b.chunks| == |b.chunks.Keys|;
  }

  lemma TakeGood(r: Reassembly, id: uint32, a: seq<byte>, b: seq<byte>, first: bool, i: nat, now: int)
    requires a != [] && b != [] && |Chunks(a)| <= 0xFF && |Chunks(b)| <= 0xFF && Compatible(a, b)
    requires (id in r ==> GoodBuffer(a, b, r[id])) && i < |Chunks(if first then a else b)|
    ensures var buffer := Stored(r, PartsOf(id, if first then a else b, i), now);
            if Complete(buffer) then Collected(buffer.chunks, buffer.total) in {a, b} else GoodBuffer(a, b, buffer)
  {
    hide Chunks, Collected, Stored, Complete, Mixed, Genuine, PartsOf, AtMostOneDiffers;
    if |Chunks(a)| == |Chunks(b)| {
      StoredMixed(r, id, a, b, first, i, now);
      var buffer := Stored(r, PartsOf(id, if first then a else b, i), now);
      if Complete(buffer) {
        MixedIsOriginal(a, b, buffer);
      }
    } else if |Chunks(a)| > |Chunks(b)| {
      TakeUnequal(r, id, a, b, !first, i, now);
    } else {
      TakeUnequal(r, id, b, a, first, i, now);
    }
  }

  lemma StepGood(id: uint32, a: seq<byte>, b: seq<byte>, r: Receiver, e: Event)
    requires a != [] && b != [] && |Chunks(a)| <= 0xFF && |Chunks(b)| <= 0xFF && Compatible(a, b) && Good(id, a, b, r)
    ensures Good(id, a, b, Step(id, a, b, r, e))
  {
    hide Chunks, Packets, Parse, Collected, Stored, Complete, GoodBuffer, PartsOf, Compatible;
    if e.Packet? {
      var s := if e.first then a else b;
      if e.i < |Packets(id, s)| {
        PartsAreRead(id, s, e.i);
        assert PartsOf(id, s, e.i).id == id by { PartsID(id, s, e.i); }
        TakeGood(r.reassembly, id, a, b, e.first, e.i, e.now);
      }
    }
  }

  lemma PartsID(id: uint32, s: seq<byte>, i: nat)
    requires i < |Chunks(s)|
    ensures PartsOf(id, s, i).id == id
  {
  }

  lemma {:induction false} RunGood(id: uint32, a: seq<byte>, b: seq<byte>, events: seq<Event>)
    requires a != [] && b != [] && |Chunks(a)| <= 0xFF && |Chunks(b)| <= 0xFF && Compatible(a, b)
    ensures Good(id, a, b, Run(id, a, b, events))
  {
    hide Chunks, GoodBuffer, Step, Compatible;
    if events != [] {
      RunGood(id, a, b, events[..|events| - 1]);
      StepGood(id, a, b, Run(id, a, b, events[..|events| - 1]), events[|events| - 1]);
    }
  }

  // ---------------------------------------------------------------- a run that completes a buffer

  function MapOf(ps: seq<Parts>): map<byte, seq<byte>> {
    if ps == [] then map[] else MapOf(ps[..|ps| - 1])[ps[|ps| - 1].index := ps[|ps| - 1].payload]
  }

  ghost predicate DistinctIndices(ps: seq<Parts>) {
    forall j, k :: 0 <= j < k < |ps| ==> ps[j].index != ps[k].index
  }

  predicate HasIndex(ps: seq<Parts>, x: byte) {
    exists j :: 0 <= j < |ps| && ps[j].index == x
  }

  lemma HasIndexAppend(ps: seq<Parts>, x: byte)
    requires ps != []
    ensures HasIndex(ps, x) <==> HasIndex(ps[..|ps| - 1], x) || ps[|ps| - 1].index == x
  {
    var n := |ps| - 1;
    if HasIndex(ps[..n], x) {
      var j :| 0 <= j < n && ps[..n][j].index == x;
      assert ps[j].index == x;
    }
    if HasIndex(ps, x) {
      var j :| 0 <= j < |ps| && ps[j].index == x;
      assert j < n ==> ps[..n][j].index == x;
    }
  }

  lemma {:induction false} MapOfKeys(ps: seq<Parts>, x: byte)
    ensures x in MapOf(ps) <==> HasIndex(ps, x)
  {
    hide HasIndex;
    if ps == [] {
      assert !HasIndex([], x) by { NoIndex(x); }
    } else {
      MapOfKeys(ps[..|ps| - 1], x);
      HasIndexAppend(ps, x);
    }
  }

  lemma NoIndex(x: byte)
    ensures !HasIndex([], x)
  {
  }

  lemma LastIndexIsNew(ps: seq<Parts>)
    requires DistinctIndices(ps) && ps != []
    ensures !HasIndex(ps[..|ps| - 1], ps[|ps| - 1].index) && DistinctIndices(ps[..|ps| - 1])
  {
  }

  lemma {:induction false} MapOfSize(ps: seq<Parts>)
    requires DistinctIndices(ps)
    ensures |MapOf(ps)| == |ps|
  {
    hide DistinctIndices, HasIndex;
    if ps != [] {
      var n := |ps| - 1;
      LastIndexIsNew(ps);
      MapOfSize(ps[..n]);
      MapOfKeys(ps[..n], ps[n].index);
      assert MapOf(ps).Keys == MapOf(ps[..n]).Keys + {ps[n].index};
      assert |MapOf(ps)| == |MapOf(ps).Keys| && |MapOf(ps[..n])| == |MapOf(ps[..n]).Keys|;
    }
  }

  lemma {:induction false} MapOfValue(ps: seq<Parts>, j: nat)
    requires DistinctIndices(ps) && j < |ps|
    ensures ps[j].index in MapOf(ps) && MapOf(ps)[ps[j].index] == ps[j].payload
  {
    var n := |ps| - 1;
    if j < n {
      assert ps[..n][j] == ps[j];
      MapOfValue(ps[..n], j);
    }
  }

  /** Packets with the given chunks. */
  ghost predicate Carry(id: uint32, a: seq<byte>, b: seq<byte>, events: seq<Event>, ps: seq<Parts>) {
    && |ps| == |events|
    && forall j :: 0 <= j < |ps| ==>
         && events[j].Packet? && events[j].now == 0
         && events[j].i < |Chunks(if events[j].first then a else b)|
         && ps[j] == PartsOf(id, if events[j].first then a else b, events[j].i)
  }

  lemma StepCarried(id: uint32, a: seq<byte>, b: seq<byte>, r: Receiver, e: Event)
    requires e.Packet? && e.i < |Chunks(if e.first then a else b)|
    ensures var (reassembly, full) := Take(r.reassembly, PartsOf(id, if e.first then a else b, e.i), e.now);
            Step(id, a, b, r, e) == Receiver(reassembly, r.delivered + if full.Some? then [full.value] else [])
  {
    hide Chunks, Packets, Parse, Take, PartsOf;
    PartsAreRead(id, if e.first then a else b, e.i);
  }

  /** The buffers while chunks come in. */
  function Filling(id: uint32, ps: seq<Parts>, total: byte): Reassembly {
    if ps == [] then map[] else map[id := Buffer(MapOf(ps), total, 0)]
  }

  lemma StoredNext(ps: seq<Parts>, id: uint32)
    requires ps != [] && forall j :: 0 <= j < |ps| ==> ps[j].id == id
    ensures Stored(Filling(id, ps[..|ps| - 1], ps[0].total), ps[|ps| - 1], 0) == Buffer(MapOf(ps), ps[0].total, 0)
  {
    var n := |ps| - 1;
    if n == 0 {
      assert ps[..0] == [] && MapOf(ps) == MapOf(ps[..0])[ps[0].index := ps[0].payload];
    }
  }

  lemma FillingMap(id: uint32, ps: seq<Parts>, total: byte, b: Buffer)
    ensures Filling(id, ps, total) - {id} == map[] && Filling(id, ps, total)[id := b] == map[id := b]
  {
    hide MapOf;
  }

  lemma CompleteIfFull(chunks: map<byte, seq<byte>>, total: byte)
    requires |chunks| <= total
    ensures Complete(Buffer(chunks, total, 0)) <==> |chunks| == total
  {
  }

  lemma TakeNext(ps: seq<Parts>, id: uint32)
    requires ps != [] && DistinctIndices(ps) && (forall j :: 0 <= j < |ps| ==> ps[j].id == id) && |ps| <= ps[0].total
    ensures var r := Take(Filling(id, ps[..|ps| - 1], ps[0].total), ps[|ps| - 1], 0);
            && (|ps| == ps[0].total ==> r == (map[], Some(Collected(MapOf(ps), ps[0].total))))
            && (|ps| < ps[0].total ==> r == (Filling(id, ps, ps[0].total), None))
  {
    hide Collected, MapOf, Stored, DistinctIndices, Filling, Complete;
    MapOfSize(ps);
    StoredNext(ps, id);
    CompleteIfFull(MapOf(ps), ps[0].total);
    FillingMap(id, ps[..|ps| - 1], ps[0].total, Buffer(MapOf(ps), ps[0].total, 0));
    assert Filling(id, ps, ps[0].total) == map[id := Buffer(MapOf(ps), ps[0].total, 0)] by { FillingIs(id, ps, ps[0].total); }
  }

  lemma FillingIs(id: uint32, ps: seq<Parts>, total: byte)
    requires ps != []
    ensures Filling(id, ps, total) == map[id := Buffer(MapOf(ps), total, 0)]
  {
  }

  lemma CarryPrefix(id: uint32, a: seq<byte>, b: seq<byte>, events: seq<Event>, ps: seq<Parts>, n: nat)
    requires Carry(id, a, b, events, ps) && n <= |ps|
    ensures Carry(id, a, b, events[..n], ps[..n])
    ensures forall j :: 0 <= j < |ps| ==> ps[j].id == id
    ensures DistinctIndices(ps) ==> DistinctIndices(ps[..n])
  {
    hide Chunks;
  }

  /** As many different chunks as the first one announces are delivered as one bundle, with the last one of them. */
  lemma {:induction false} CarriedIsDelivered(id: uint32, a: seq<byte>, b: seq<byte>, events: seq<Event>, ps: seq<Parts>)
    requires Carry(id, a, b, events, ps) && DistinctIndices(ps) && ps != [] && |ps| <= ps[0].total
    ensures var full := |ps| == ps[0].total;
            var whole := if full then [Collected(MapOf(ps), ps[0].total)] else [];
            Run(id, a, b, events) == Receiver(if full then map[] else Filling(id, ps, ps[0].total), whole)
    decreases |ps|
  {
    hide Chunks, Take, Collected, MapOf, Step, PartsOf, DistinctIndices, Filling;
    var n := |ps| - 1;
    CarryPrefix(id, a, b, events, ps, n);
    var before := Run(id, a, b, events[..n]);
    if n > 0 {
      CarriedIsDelivered(id, a, b, events[..n], ps[..n]);
      assert ps[..n][0] == ps[0];
    } else {
      assert before == NEW && Filling(id, ps[..n], ps[0].total) == map[] by { NothingFilled(id, ps[0].total); }
    }
    assert before == Receiver(Filling(id, ps[..n], ps[0].total), []);
    TakeNext(ps, id);
    StepCarried(id, a, b, before, events[n]);
  }

  lemma NothingFilled(id: uint32, total: byte)
    ensures Filling(id, [], total) == map[]
  {
  }

  // ---------------------------------------------------------------- incompatible bundles

  lemma {:induction false} ConcatInjective(cs: seq<seq<byte>>, ds: seq<seq<byte>>)
    requires |cs| == |ds| && Concat(cs) == Concat(ds)
    requires forall i :: 0 <= i < |cs| - 1 ==> |cs[i]| == |ds[i]|
    ensures cs == ds
  {
    if cs != [] {
      assert cs == [cs[0]] + cs[1..] && ds == [ds[0]] + ds[1..];
      ConcatCons(cs[0], cs[1..]);
      ConcatCons(ds[0], ds[1..]);
      if |cs| == 1 {
        assert Concat(cs[1..]) == [] && Concat(ds[1..]) == [];
      }
      var whole := cs[0] + Concat(cs[1..]);
      assert whole[..|cs[0]|] == cs[0] && whole[|cs[0]|..] == Concat(cs[1..]);
      assert |cs[0]| == |ds[0]| && whole[..|ds[0]|] == ds[0] && whole[|ds[0]|..] == Concat(ds[1..]);
      ConcatInjective(cs[1..], ds[1..]);
    }
  }

  /** A run that delivers one byte string. */
  ghost predicate Delivers(id: uint32, a: seq<byte>, b: seq<byte>, events: seq<Event>, bytes: seq<byte>) {
    Run(id, a, b, events).delivered == [bytes]
  }

  lemma CarriedDelivers(id: uint32, a: seq<byte>, b: seq<byte>, events: seq<Event>, ps: seq<Parts>)
    requires Carry(id, a, b, events, ps) && DistinctIndices(ps) && ps != [] && |ps| == ps[0].total
    ensures Delivers(id, a, b, events, Collected(MapOf(ps), |ps|))
  {
    hide Run, Carry, Collected, MapOf, Filling, DistinctIndices;
    CarriedIsDelivered(id, a, b, events, ps);
  }

  function Source(first: bool, a: seq<byte>, b: seq<byte>): seq<byte> {
    if first then a else b
  }

  /** A choice of chunks: from which bundle, and at which position. */
  datatype Choice = Choice(first: bool, i: nat)

  ghost predicate InBundle(a: seq<byte>, b: seq<byte>, c: Choice) {
    c.i < |Chunks(Source(c.first, a, b))| <= 0xFF
  }

  function At(a: seq<byte>, b: seq<byte>, c: Choice): seq<byte>
    requires InBundle(a, b, c)
  {
    Chunks(Source(c.first, a, b))[c.i]
  }

  /** Chunks at different positions, as many as the first one's bundle has. */
  ghost predicate Choosable(a: seq<byte>, b: seq<byte>, cs: seq<Choice>) {
    && (forall j :: 0 <= j < |cs| ==> InBundle(a, b, cs[j]))
    && (forall j, k :: 0 <= j < k < |cs| ==> cs[j].i != cs[k].i)
    && cs != [] && |cs| == |Chunks(Source(cs[0].first, a, b))|
  }

  ghost predicate Chosen(cs: seq<Choice>, x: int) {
    exists j :: 0 <= j < |cs| && cs[j].i == x
  }

  /** The chunks chosen, and no others. */
  ghost predicate Holds(a: seq<byte>, b: seq<byte>, cs: seq<Choice>, chunks: map<byte, seq<byte>>)
    requires forall j :: 0 <= j < |cs| ==> InBundle(a, b, cs[j])
  {
    && (forall j :: 0 <= j < |cs| ==> cs[j].i in chunks && chunks[cs[j].i] == At(a, b, cs[j]))
    && forall x :: x in chunks ==> Chosen(cs, x)
  }

  function EventsOf(cs: seq<Choice>): (es: seq<Event>)
    ensures |es| == |cs| && forall j :: 0 <= j < |cs| ==> es[j] == Packet(cs[j].first, cs[j].i, 0)
  {
    seq(|cs|, j requires 0 <= j < |cs| => Packet(cs[j].first, cs[j].i, 0))
  }

  ghost function PartsAt(id: uint32, a: seq<byte>, b: seq<byte>, c: Choice): (p: Parts)
    requires InBundle(a, b, c)
    ensures p == Parts(id, c.i, |Chunks(Source(c.first, a, b))|, At(a, b, c))
    ensures p == PartsOf(id, Source(c.first, a, b), c.i)
  {
    PartsOf(id, Source(c.first, a, b), c.i)
  }

  ghost function ChosenParts(id: uint32, a: seq<byte>, b: seq<byte>, cs: seq<Choice>): (ps: seq<Parts>)
    requires forall j :: 0 <= j < |cs| ==> InBundle(a, b, cs[j])
    ensures |ps| == |cs| && forall j :: 0 <= j < |cs| ==> ps[j] == PartsAt(id, a, b, cs[j])
  {
    seq(|cs|, j requires 0 <= j < |cs| => PartsAt(id, a, b, cs[j]))
  }

  lemma CarryOne(id: uint32, a: seq<byte>, b: seq<byte>, c: Choice)
    requires InBundle(a, b, c)
    ensures c.i < |Chunks(if c.first then a else b)|
    ensures PartsAt(id, a, b, c) == PartsOf(id, if c.first then a else b, c.i) && PartsAt(id, a, b, c).index == c.i
  {
    hide Chunks;
  }

  lemma ChosenAreCarried(id: uint32, a: seq<byte>, b: seq<byte>, cs: seq<Choice>)
    requires Choosable(a, b, cs)
    ensures var ps := ChosenParts(id, a, b, cs);
            Carry(id, a, b, EventsOf(cs), ps) && DistinctIndices(ps) && ps != [] && |ps| == ps[0].total
  {
    hide Chunks, PartsAt, PartsOf, InBundle;
    var ps := ChosenParts(id, a, b, cs);
    forall j | 0 <= j < |cs|
      ensures cs[j].i < |Chunks(if cs[j].first then a else b)| && ps[j] == PartsOf(id, if cs[j].first then a else b, cs[j].i)
      ensures ps[j].index == cs[j].i
    {
      CarryOne(id, a, b, cs[j]);
    }
  }

  lemma ChosenAreHeld(id: uint32, a: seq<byte>, b: seq<byte>, cs: seq<Choice>)
    requires Choosable(a, b, cs)
    ensures forall j :: 0 <= j < |cs| ==> InBundle(a, b, cs[j])
    ensures Holds(a, b, cs, MapOf(ChosenParts(id, a, b, cs)))
  {
    hide Chunks, MapOf, Carry, Choosable, PartsAt, PartsOf, InBundle, At, DistinctIndices, Chosen;
    AllInBundle(a, b, cs);
    var ps := ChosenParts(id, a, b, cs);
    ChosenAreCarried(id, a, b, cs);
    forall j | 0 <= j < |cs| ensures cs[j].i in MapOf(ps) && MapOf(ps)[cs[j].i] == At(a, b, cs[j]) {
      MapOfValue(ps, j);
      CarryOne(id, a, b, cs[j]);
    }
    forall x | x in MapOf(ps) ensures Chosen(cs, x) {
      MapOfKeys(ps, x);
      var j :| 0 <= j < |ps| && ps[j].index == x;
      CarryOne(id, a, b, cs[j]);
      ChosenAt(cs, j);
    }
  }

  lemma ChosenAt(cs: seq<Choice>, j: nat)
    requires j < |cs|
    ensures Chosen(cs, cs[j].i)
  {
  }

  lemma AllInBundle(a: seq<byte>, b: seq<byte>, cs: seq<Choice>)
    requires Choosable(a, b, cs)
    ensures forall j :: 0 <= j < |cs| ==> InBundle(a, b, cs[j])
  {
    hide Chunks;
  }

  /** They are delivered as one bundle. */
  lemma ChosenIsDelivered(id: uint32, a: seq<byte>, b: seq<byte>, cs: seq<Choice>) returns (chunks: map<byte, seq<byte>>)
    requires Choosable(a, b, cs)
    ensures forall j :: 0 <= j < |cs| ==> InBundle(a, b, cs[j])
    ensures Holds(a, b, cs, chunks) && |cs| <= 0xFF && Delivers(id, a, b, EventsOf(cs), Collected(chunks, |cs|))
  {
    hide Chunks, Collected, MapOf, Delivers, Carry, DistinctIndices, Holds;
    AllInBundle(a, b, cs);
    ChosenAreCarried(id, a, b, cs);
    ChosenAreHeld(id, a, b, cs);
    chunks := MapOf(ChosenParts(id, a, b, cs));
    CarriedDelivers(id, a, b, EventsOf(cs), ChosenParts(id, a, b, cs));
  }

  /** The chunk at position p from the first bundle, all others from the second one. */
  function Mixture(n: nat, p: nat): (cs: seq<Choice>)
    ensures |cs| == n && forall i :: 0 <= i < n ==> cs[i] == Choice(i == p, i)
  {
    seq(n, i requires 0 <= i < n => Choice(i == p, i))
  }

  /** Equally many chunks of which two differ: one of them from either bundle. */
  lemma TwoDiffer(id: uint32, a: seq<byte>, b: seq<byte>, p: nat, q: nat) returns (events: seq<Event>, bytes: seq<byte>)
    requires |Chunks(a)| == |Chunks(b)| <= 0xFF && p < q < |Chunks(a)|
    requires Chunks(a)[p] != Chunks(b)[p] && Chunks(a)[q] != Chunks(b)[q]
    ensures Delivers(id, a, b, events, bytes) && bytes != a && bytes != b
  {
    hide Chunks, Collected, Concat, Delivers, Choosable;
    var n := |Chunks(a)|;
    var choices := Mixture(n, p);
    events := EventsOf(choices);
    MixtureIsChoosable(a, b, p);
    var chunks := ChosenIsDelivered(id, a, b, choices);
    forall i: byte | i < n ensures i in chunks {
      assert choices[i].i == i;
    }
    var cs := ChunksInOrder(chunks, n);
    bytes := Concat(cs);
    forall i | 0 <= i < n ensures cs[i] == if i == p then Chunks(a)[i] else Chunks(b)[i] {
      assert choices[i] == Choice(i == p, i) && cs[i] == At(a, b, choices[i]);
    }
    OtherChunks(a, cs, q);
    OtherChunks(b, cs, p);
  }

  lemma MixtureIsChoosable(a: seq<byte>, b: seq<byte>, p: nat)
    requires 0 < |Chunks(a)| == |Chunks(b)| <= 0xFF
    ensures Choosable(a, b, Mixture(|Chunks(a)|, p))
  {
    hide Chunks;
  }

  /** Chunks of full size, but for the last, that differ from a bundle's give other bytes. */
  lemma OtherChunks(s: seq<byte>, cs: seq<seq<byte>>, k: nat)
    requires |cs| == |Chunks(s)| && k < |cs| && cs[k] != Chunks(s)[k]
    requires forall i :: 0 <= i < |cs| - 1 ==> |cs[i]| == MAX_PAYLOAD_BYTES
    ensures Concat(cs) != s
  {
    hide Chunks, Concat;
    ConcatChunks(s);
    if Concat(cs) == s {
      ConcatInjective(cs, Chunks(s));
    }
  }

  lemma ShorterBytes(s: seq<byte>, l: seq<byte>)
    requires 0 < |Chunks(s)| < |Chunks(l)|
    ensures var m := |Chunks(s)| - 1; |Concat(Chunks(s)[..m])| < |s| < |l|
  {
    ConcatChunks(s);
  }

  /** All chunks of a bundle but the last, and then the one behind that from the other bundle. */
  function TooFar(m: nat, first: bool): (cs: seq<Choice>)
    requires m > 0
    ensures |cs| == m && forall j :: 0 <= j < m ==> cs[j] == if j < m - 1 then Choice(first, j) else Choice(!first, m)
  {
    seq(m, j requires 0 <= j < m => if j < m - 1 then Choice(first, j) else Choice(!first, m))
  }

  lemma TooFarIsChoosable(a: seq<byte>, b: seq<byte>, first: bool)
    requires 2 <= |Chunks(Source(first, a, b))| < |Chunks(Source(!first, a, b))| <= 0xFF
    ensures Choosable(a, b, TooFar(|Chunks(Source(first, a, b))|, first))
  {
    hide Chunks;
  }

  /** Unequally many chunks, two or more: all but the last chunk of the shorter bundle, and one of the longer bundle that is
      too far behind to be looked at. */
  lemma OneTooFar(id: uint32, a: seq<byte>, b: seq<byte>, first: bool) returns (events: seq<Event>, bytes: seq<byte>)
    requires 2 <= |Chunks(Source(first, a, b))| < |Chunks(Source(!first, a, b))| <= 0xFF
    ensures Delivers(id, a, b, events, bytes) && bytes != a && bytes != b
  {
    hide Chunks, Collected, Concat, Delivers, Choosable;
    var s, l := Source(first, a, b), Source(!first, a, b);
    var m := |Chunks(s)|;
    var choices := TooFar(m, first);
    events := EventsOf(choices);
    TooFarIsChoosable(a, b, first);
    var chunks := ChosenIsDelivered(id, a, b, choices);
    forall i | 0 <= i < m - 1 ensures i in chunks && chunks[i] == Chunks(s)[i] {
      assert choices[i] == Choice(first, i) && chunks[i] == At(a, b, choices[i]);
    }
    assert !Chosen(choices, m - 1);
    CollectedAll(chunks, Chunks(s), m - 1);
    CollectedMissing(chunks, m);
    bytes := Concat(Chunks(s)[..m - 1]);
    ShorterBytes(s, l);
  }

  lemma CollectedMissing(chunks: map<byte, seq<byte>>, k: nat)
    requires 0 < k <= 0x100 && k - 1 !in chunks
    ensures Collected(chunks, k) == Collected(chunks, k - 1)
  {
  }

  /** All chunks of a bundle but the first, and then the first one of the other bundle. */
  function OtherFirst(n: nat, first: bool): (cs: seq<Choice>)
    requires n > 0
    ensures |cs| == n && forall j :: 0 <= j < n ==> cs[j] == if j < n - 1 then Choice(!first, j + 1) else Choice(first, 0)
  {
    seq(n, j requires 0 <= j < n => if j < n - 1 then Choice(!first, j + 1) else Choice(first, 0))
  }

  lemma OtherFirstIsChoosable(a: seq<byte>, b: seq<byte>, first: bool)
    requires |Chunks(Source(first, a, b))| == 1 < |Chunks(Source(!first, a, b))| <= 0xFF
    ensures Choosable(a, b, OtherFirst(|Chunks(Source(!first, a, b))|, first))
  {
    hide Chunks;
  }

  lemma OtherFirstHeld(a: seq<byte>, b: seq<byte>, first: bool, chunks: map<byte, seq<byte>>, j: nat)
    requires var s, l := Source(first, a, b), Source(!first, a, b);
             |Chunks(s)| == 1 < |Chunks(l)| <= 0xFF && j < |Chunks(l)|
    requires var cs := OtherFirst(|Chunks(Source(!first, a, b))|, first);
             (forall k :: 0 <= k < |cs| ==> InBundle(a, b, cs[k])) && Holds(a, b, cs, chunks)
    ensures var s, l := Source(first, a, b), Source(!first, a, b);
            var i := if j == |Chunks(l)| - 1 then 0 else j + 1;
            i in chunks && chunks[i] == if i == 0 then Chunks(s)[0] else Chunks(l)[i]
  {
    hide Chunks, Chosen;
    var choice := OtherFirst(|Chunks(Source(!first, a, b))|, first)[j];
    assert chunks[choice.i] == At(a, b, choice);
  }

  /** A single chunk that differs from the other bundle's first one takes its place. */
  lemma FirstReplaced(id: uint32, a: seq<byte>, b: seq<byte>, first: bool) returns (events: seq<Event>, bytes: seq<byte>)
    requires |Chunks(Source(first, a, b))| == 1 < |Chunks(Source(!first, a, b))| <= 0xFF
    requires Chunks(Source(first, a, b))[0] != Chunks(Source(!first, a, b))[0]
    ensures Delivers(id, a, b, events, bytes) && bytes != a && bytes != b
  {
    hide Chunks, Collected, Concat, Delivers, Choosable, Holds, At, InBundle;
    var s, l := Source(first, a, b), Source(!first, a, b);
    var n := |Chunks(l)|;
    var choices := OtherFirst(n, first);
    events := EventsOf(choices);
    OtherFirstIsChoosable(a, b, first);
    var chunks := ChosenIsDelivered(id, a, b, choices);
    var cs := [Chunks(s)[0]] + Chunks(l)[1..];
    forall i | 0 <= i < n ensures i in chunks && chunks[i] == cs[i] {
      OtherFirstHeld(a, b, first, chunks, if i == 0 then n - 1 else i - 1);
    }
    CollectedAll(chunks, cs, n);
    assert cs[..n] == cs;
    bytes := Concat(cs);
    FirstChunkMatters(s, l);
  }

  lemma FirstChunkMatters(s: seq<byte>, l: seq<byte>)
    requires |Chunks(s)| == 1 < |Chunks(l)| && Chunks(s)[0] != Chunks(l)[0]
    ensures Concat([Chunks(s)[0]] + Chunks(l)[1..]) !in {s, l}
  {
    hide Chunks, Concat;
    var rest := Concat(Chunks(l)[1..]);
    ConcatChunks(s);
    ConcatChunks(l);
    ConcatCons(Chunks(s)[0], Chunks(l)[1..]);
    ConcatCons(Chunks(l)[0], Chunks(l)[1..]);
    assert Chunks(l) == [Chunks(l)[0]] + Chunks(l)[1..];
    assert Chunks(s) == [Chunks(s)[0]] + [];
    ConcatCons(Chunks(s)[0], []);
    assert Concat([]) == [] by { NothingConcat(); }
    assert s == Chunks(s)[0];
    assert |rest| > 0;
    SameFront(Chunks(s)[0], Chunks(l)[0], rest);
  }

  lemma SameFront(x: seq<byte>, y: seq<byte>, rest: seq<byte>)
    ensures x + rest == y + rest <==> x == y
  {
    if |x| == |y| {
      SameParts(x, rest, y, rest);
    } else {
      assert |x + rest| != |y + rest|;
    }
  }

  lemma NothingConcat()
    ensures Concat([]) == []
  {
  }

  lemma DeliversOther(id: uint32, a: seq<byte>, b: seq<byte>, events: seq<Event>, bytes: seq<byte>)
    requires Delivers(id, a, b, events, bytes) && bytes != a && bytes != b
    ensures !OnlyOriginals(id, a, b)
  {
    hide Run;
    assert Run(id, a, b, events).delivered[0] == bytes;
  }

  /** For two bundles of at most 255 chunks each under one ID, whatever is lost, duplicated, reordered or discarded: all runs
      deliver nothing but the two bundles exactly if they are compatible. Otherwise there is a run that delivers a byte string
      that is neither. */
  lemma SharedIDExactly(id: uint32, a: seq<byte>, b: seq<byte>)
    requires a != [] && b != [] && |Chunks(a)| <= 0xFF && |Chunks(b)| <= 0xFF
    ensures OnlyOriginals(id, a, b) <==> Compatible(a, b)
    ensures !Compatible(a, b) ==> exists events, bytes :: Delivers(id, a, b, events, bytes) && bytes != a && bytes != b
  {
    hide Chunks, Run, Delivers, OnlyOriginals;
    if Compatible(a, b) {
      forall events, k | 0 <= k < |Run(id, a, b, events).delivered| ensures Run(id, a, b, events).delivered[k] in {a, b} {
        RunGood(id, a, b, events);
      }
      assert OnlyOriginals(id, a, b) by { AllOriginals(id, a, b); }
    } else {
      var events, bytes := Incompatible(id, a, b);
      DeliversOther(id, a, b, events, bytes);
    }
  }

  lemma AllOriginals(id: uint32, a: seq<byte>, b: seq<byte>)
    requires forall events, k :: 0 <= k < |Run(id, a, b, events).delivered| ==> Run(id, a, b, events).delivered[k] in {a, b}
    ensures OnlyOriginals(id, a, b)
  {
  }

  lemma Incompatible(id: uint32, a: seq<byte>, b: seq<byte>) returns (events: seq<Event>, bytes: seq<byte>)
    requires a != [] && b != [] && |Chunks(a)| <= 0xFF && |Chunks(b)| <= 0xFF && !Compatible(a, b)
    ensures Delivers(id, a, b, events, bytes) && bytes != a && bytes != b
  {
    hide Chunks, Delivers;
    var ca, cb := Chunks(a), Chunks(b);
    if |ca| == |cb| {
      var p, q :| 0 <= p < q < |ca| && ca[p] != cb[p] && ca[q] != cb[q];
      events, bytes := TwoDiffer(id, a, b, p, q);
    } else if |ca| == 1 || |cb| == 1 {
      events, bytes := FirstReplaced(id, a, b, |ca| == 1);
    } else {
      events, bytes := OneTooFar(id, a, b, |ca| < |cb|);
    }
  }

  /** Bundles whose creation times agree in their lower 32 bits share an ID. */
  lemma SharedByTime(t: uint64, u: uint64)
    ensures PacketID(t) == PacketID(u) <==> (t - u) % TWO_TO_THE_32 == 0
  {
  }
}
