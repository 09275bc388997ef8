/** Bundles in small packets over LoRa: splitting, an eight-byte header, and a receiver that collects the chunks of several
    bundles at once, from packets that get lost, duplicated and reordered. */
module Meshtastic {
  import opened Bytes
  import Numbering

  const MAX_PAYLOAD_BYTES := 192
  const HEADER_SIZE := 8
  const TIMEOUT_SECONDS := 60

  // ---------------------------------------------------------------- splitting

  function Chunks(s: seq<byte>): (cs: seq<seq<byte>>)
    ensures forall i :: 0 <= i < |cs| ==> 0 < |cs[i]| <= MAX_PAYLOAD_BYTES
    ensures forall i :: 0 <= i < |cs| - 1 ==> |cs[i]| == MAX_PAYLOAD_BYTES
    ensures MAX_PAYLOAD_BYTES * (|cs| - 1) < |s| <= MAX_PAYLOAD_BYTES * |cs| || (s == [] && cs == [])
  {
    if s == [] then []
    else
      var end := if MAX_PAYLOAD_BYTES > |s| then |s| else MAX_PAYLOAD_BYTES;
      [s[..end]] + Chunks(s[end..])
  }

  function Concat(cs: seq<seq<byte>>): seq<byte> {
    if cs == [] then [] else Concat(cs[..|cs| - 1]) + cs[|cs| - 1]
  }

  lemma {:induction false} ConcatCons(c: seq<byte>, cs: seq<seq<byte>>)
    ensures Concat([c] + cs) == c + Concat(cs)
  {
    if cs == [] {
      assert [c] + cs == [c] && [c][..0] == [];
    } else {
      var n := |cs| - 1;
      assert ([c] + cs)[..n + 1] == [c] + cs[..n];
      ConcatCons(c, cs[..n]);
    }
  }

  lemma {:induction false} ConcatChunks(s: seq<byte>)
    ensures Concat(Chunks(s)) == s
  {
    if s != [] {
      var end := if MAX_PAYLOAD_BYTES > |s| then |s| else MAX_PAYLOAD_BYTES;
      ConcatChunks(s[end..]);
      ConcatCons(s[..end], Chunks(s[end..]));
    }
  }

  /** The chunk loop of Send. */
  method Split(s: seq<byte>) returns (chunks: seq<seq<byte>>)
    ensures chunks == Chunks(s)
  {
    chunks := [];
    var left := s;
    while left != []
      invariant Chunks(s) == chunks + Chunks(left)
      decreases |left|
    {
      var end := MAX_PAYLOAD_BYTES;
      if end > |left| {
        end := |left|;
      }
      chunks := chunks + [left[..end]];
      left := left[end..];
    }
  }

  // ---------------------------------------------------------------- packets

  /** Chunk position and number of chunks are cut to eight bits. */
  function Packet(id: uint32, i: nat, total: nat, payload: seq<byte>): seq<byte> {
    BigEndian(id, 4) + [i % 0x100, total % 0x100] + BigEndian(|payload| % TWO_TO_THE_16, 2) + payload
  }

  /** The lower 32 bits of the creation time. */
  function PacketID(time: uint64): uint32 {
    time % TWO_TO_THE_32
  }

  datatype Parts = Parts(id: uint32, index: byte, total: byte, payload: seq<byte>)

  /** A packet that is shorter than a header, one whose announced payload ends behind its buffer, which is a slice bounds
      panic, or a chunk. */
  datatype Read = Short | OutOfRange | Chunk(parts: Parts)

  function Zeros(n: nat): (s: seq<byte>)
    ensures |s| == n
  {
    seq(n, i => 0)
  }

  /** Read a packet in a buffer of `capacity` bytes, zero behind the packet: the payload may end behind the packet, but not
      behind the buffer. */
  function ReadPacket(data: seq<byte>, capacity: nat): Read
    requires |data| <= capacity
  {
    if |data| < HEADER_SIZE then Short
    else
      Pow256Values();
      FromBigEndianBound(data[..4]);
      var end := HEADER_SIZE + FromBigEndian(data[6..8]);
      if end > capacity then OutOfRange
      else Chunk(Parts(FromBigEndian(data[..4]), data[4], data[5], (data + Zeros(capacity - |data|))[HEADER_SIZE..end]))
  }

  /** The chunk in a packet that fills its buffer. */
  function Parse(data: seq<byte>): Option<Parts> {
    var r := ReadPacket(data, |data|);
    if r.Chunk? then Some(r.parts) else None
  }

  /** In a buffer of any size. */
  lemma HeaderRoundTripIn(id: uint32, i: nat, total: nat, payload: seq<byte>, capacity: nat)
    requires |payload| < TWO_TO_THE_16 && |Packet(id, i, total, payload)| <= capacity
    ensures ReadPacket(Packet(id, i, total, payload), capacity) == Chunk(Parts(id, i % 0x100, total % 0x100, payload))
  {
    hide BigEndian, FromBigEndian, Pow256;
    var data := Packet(id, i, total, payload);
    Pow256Values();
    BigEndianRoundTrip(id, 4);
    BigEndianRoundTrip(|payload|, 2);
    assert data[..4] == BigEndian(id, 4) && data[6..8] == BigEndian(|payload|, 2);
    assert (data + Zeros(capacity - |data|))[8..8 + |payload|] == payload;
  }

  lemma HeaderRoundTrip(id: uint32, i: nat, total: nat, payload: seq<byte>)
    requires |payload| < TWO_TO_THE_16
    ensures Parse(Packet(id, i, total, payload)) == Some(Parts(id, i % 0x100, total % 0x100, payload))
  {
    hide Packet, ReadPacket;
    HeaderRoundTripIn(id, i, total, payload, |Packet(id, i, total, payload)|);
  }

  /** Four bytes, most significant first. */
  function Word(w: seq<byte>): (n: int)
    requires |w| == 4
  {
    w[0] as int * 0x100_0000 + w[1] as int * 0x1_0000 + w[2] as int * 0x100 + w[3] as int
  }

  lemma WordsOf(data: seq<byte>)
    requires |data| >= HEADER_SIZE
    ensures FromBigEndian(data[..4]) == Word([data[0], data[1], data[2], data[3]])
    ensures FromBigEndian(data[6..8]) == Word([0, 0, data[6], data[7]])
  {
    var w := data[6..8];
    assert FromBigEndian(w[..1]) == 0x100 * FromBigEndian([]) + w[0];
    var v := data[..4];
    assert v[..3][..2] == v[..2] && v[..2][..1] == v[..1];
    assert FromBigEndian(v[..1]) == 0x100 * FromBigEndian([]) + v[0];
    assert FromBigEndian(v[..2]) == 0x100 * FromBigEndian(v[..1]) + v[1];
    assert FromBigEndian(v[..3]) == 0x100 * FromBigEndian(v[..2]) + v[2];
  }

  /** Of any packet in any buffer: it is too short, or announces more than the buffer holds, or gives a chunk whose payload is
      taken from the packet and, where it announces more, filled up with zeros. */
  lemma ReadPacketExactly(data: seq<byte>, capacity: nat)
    requires |data| <= capacity
    ensures var r := ReadPacket(data, capacity);
            if |data| < 8 then r == Short
            else
              var length := Word([0, 0, data[6], data[7]]);
              if 8 + length > capacity then r == OutOfRange
              else
                && r.Chunk? && |r.parts.payload| == length && r.parts.index == data[4] && r.parts.total == data[5]
                && r.parts.id == Word([data[0], data[1], data[2], data[3]])
                && forall k :: 0 <= k < length ==> r.parts.payload[k] == if 8 + k < |data| then data[8 + k] else 0
  {
    hide FromBigEndian, Pow256;
    if |data| >= 8 {
      WordsOf(data);
    }
  }

  function Packets(id: uint32, s: seq<byte>): (ps: seq<seq<byte>>)
    ensures |ps| == |Chunks(s)|
    ensures forall i :: 0 <= i < |ps| ==> ps[i] == Packet(id, i, |ps|, Chunks(s)[i])
  {
    var cs := Chunks(s);
    seq(|cs|, i requires 0 <= i < |cs| => Packet(id, i, |cs|, cs[i]))
  }

  /** The bytes of a packet: the ID, most significant byte first, the chunk's position, the number of chunks, the length of the
      payload, and the payload. */
  lemma PacketLayout(id: uint32, i: nat, total: nat, payload: seq<byte>)
    requires |payload| < TWO_TO_THE_16
    ensures Packet(id, i, total, payload)
         == [id / 0x100_0000, id / 0x1_0000 % 0x100, id / 0x100 % 0x100, id % 0x100]
            + [i % 0x100, total % 0x100, |payload| / 0x100, |payload| % 0x100] + payload
  {
    hide BigEndian;
    FourBytes(id);
    TwoBytes(|payload|);
  }

  /** A LoRa packet holds 200 bytes: all packets of a bundle but the last are full, and none is larger or without payload. */
  lemma PacketSizes(id: uint32, s: seq<byte>, i: nat)
    requires i < |Packets(id, s)|
    ensures if i < |Packets(id, s)| - 1 then |Packets(id, s)[i]| == 200 else 8 < |Packets(id, s)[i]| <= 200
  {
    hide Chunks, BigEndian;
    assert |Chunks(s)[i]| <= MAX_PAYLOAD_BYTES;
  }

  /** Send a bundle, given its creation time and its encoding. */
  method Send(time: uint64, s: seq<byte>) returns (sent: seq<seq<byte>>)
    ensures sent == Packets(PacketID(time), s)
  {
    hide Chunks, Packet;
    var id := PacketID(time);
    var chunks := Split(s);
    sent := [];
    for i := 0 to |chunks|
      invariant sent == Packets(id, s)[..i]
    {
      sent := sent + [Packet(id, i, |chunks|, chunks[i])];
    }
  }

  // ---------------------------------------------------------------- collecting

  datatype Buffer = Buffer(chunks: map<byte, seq<byte>>, total: byte, lastSeen: int)

  type Reassembly = map<uint32, Buffer>

  /** The first `k` chunks in order; one that is missing contributes nothing. */
  function Collected(chunks: map<byte, seq<byte>>, k: nat): seq<byte>
    requires k <= 0x100
  {
    if k == 0 then [] else Collected(chunks, k - 1) + if k - 1 in chunks then chunks[k - 1] else []
  }

  /** The buffer with one more chunk. */
  function Stored(r: Reassembly, p: Parts, now: int): Buffer {
    if p.id in r then Buffer(r[p.id].chunks[p.index := p.payload], r[p.id].total, now)
    else Buffer(map[p.index := p.payload], p.total, now)
  }

  /** The chunks are counted in eight bits. */
  predicate Complete(b: Buffer) {
    |b.chunks| % 0x100 == b.total
  }

  /** Take a chunk: the buffers after it, and the bytes of a bundle that it completed. */
  function Take(r: Reassembly, p: Parts, now: int): (Reassembly, Option<seq<byte>>) {
    var b := Stored(r, p, now);
    if Complete(b) then (r - {p.id}, Some(Collected(b.chunks, b.total))) else (r[p.id := b], None)
  }

  /** Take a packet that fills its buffer. */
  function Handle(r: Reassembly, data: seq<byte>, now: int): (Reassembly, Option<seq<byte>>) {
    var p := Parse(data);
    if p.None? then (r, None) else Take(r, p.value, now)
  }

  /** Discard what has waited for too long. */
  function Clean(r: Reassembly, now: int): Reassembly {
    map id | id in r && now - r[id].lastSeen <= TIMEOUT_SECONDS :: r[id]
  }

  method JoinChunks(rb: Buffer) returns (bytes: seq<byte>)
    ensures bytes == Collected(rb.chunks, rb.total)
  {
    bytes := [];
    for i := 0 to rb.total
      invariant bytes == Collected(rb.chunks, i)
    {
      if i in rb.chunks {
        bytes := bytes + rb.chunks[i];
      }
    }
  }

  class MeshtasticServer {
    var reassembly: Reassembly

    constructor ()
      ensures reassembly == map[]
    {
      reassembly := map[];
    }

    /** Put a chunk into the buffer of its bundle, a new one if need be. */
    method StoreChunk(p: Parts, now: int)
      modifies this
      ensures reassembly == old(reassembly)[p.id := Stored(old(reassembly), p, now)]
    {
      if p.id !in reassembly {
        reassembly := reassembly[p.id := Buffer(map[], p.total, now)];
      }
      var rb := reassembly[p.id];
      reassembly := reassembly[p.id := Buffer(rb.chunks[p.index := p.payload], rb.total, now)];
      assert reassembly == old(reassembly)[p.id := Stored(old(reassembly), p, now)];
    }

    /** Handle what the transport received into a buffer of `capacity` bytes; `ok` is false for a slice bounds panic. */
    method HandlePacket(data: seq<byte>, capacity: nat, now: int) returns (full: Option<seq<byte>>, ok: bool)
      requires |data| <= capacity
      modifies this
      ensures match ReadPacket(data, capacity)
              case Short => ok && full == None && reassembly == old(reassembly)
              case OutOfRange => !ok && full == None && reassembly == old(reassembly)
              case Chunk(p) => ok && (reassembly, full) == Take(old(reassembly), p, now)
    {
      hide ReadPacket, Stored, Collected;
      var read := ReadPacket(data, capacity);
      match read {
        case Short => return None, true;
        case OutOfRange => return None, false;
        case Chunk(p) =>
          StoreChunk(p, now);
          var rb := reassembly[p.id];
          if |rb.chunks| % 0x100 != rb.total {
            return None, true;
          }
          var bytes := JoinChunks(rb);
          reassembly := reassembly - {p.id};
          assert reassembly == old(reassembly) - {p.id};
          return Some(bytes), true;
      }
    }

    method DiscardOld(now: int)
      modifies this
      ensures reassembly == Clean(old(reassembly), now)
    {
      var todo := reassembly.Keys;
      ghost var before := reassembly;
      while todo != {}
        invariant todo <= reassembly.Keys <= before.Keys
        invariant forall id :: id in reassembly ==> reassembly[id] == before[id]
        invariant forall id :: id in before && id !in todo ==> (id in reassembly <==> now - before[id].lastSeen <= TIMEOUT_SECONDS)
      {
        var id :| id in todo;
        if now - reassembly[id].lastSeen > TIMEOUT_SECONDS {
          reassembly := reassembly - {id};
        }
        todo := todo - {id};
      }
    }
  }

  // ---------------------------------------------------------------- a receiver on a bad network

  datatype Delivery = Delivery(id: uint32, bytes: seq<byte>)

  /** The buffers, and everything that was handed to the bundle decoder. */
  datatype Server = Server(reassembly: Reassembly, delivered: seq<Delivery>)

  /** Some packet of some bundle arrives, be it for the first time or not; or old buffers are discarded. Packets that never
      arrive are lost. */
  datatype Action = Arrive(id: uint32, i: nat, now: int) | Discard(now: int)

  /** `sent` has the bytes that were sent under each ID. */
  function Step(sent: map<uint32, seq<byte>>, s: Server, a: Action): Server {
    match a
    case Arrive(id, i, now) =>
      if id in sent && i < |Packets(id, sent[id])| then
        var (r, full) := Handle(s.reassembly, Packets(id, sent[id])[i], now);
        Server(r, s.delivered + if full.Some? then [Delivery(id, full.value)] else [])
      else s
    case Discard(now) => s.(reassembly := Clean(s.reassembly, now))
  }

  function Run(sent: map<uint32, seq<byte>>, s: Server, actions: seq<Action>): Server
    decreases |actions|
  {
    if actions == [] then s else Run(sent, Step(sent, s, actions[0]), actions[1..])
  }

  /** The entry is a chunk of the list whose position, cut to eight bits, is `x`. */
  ghost predicate IsChunk(cs: seq<seq<byte>>, x: byte, c: seq<byte>) {
    exists i :: 0 <= i < |cs| && i % 0x100 == x && cs[i] == c
  }

  /** A buffer holds nothing but chunks of its bundle. */
  ghost predicate Genuine(s: seq<byte>, b: Buffer) {
    && b.total == |Chunks(s)| % 0x100
    && forall x :: x in b.chunks ==> IsChunk(Chunks(s), x, b.chunks[x])
  }

  /** Right if the bundle has few enough chunks to be counted in eight bits, and too short otherwise. */
  ghost predicate Outcome(s: seq<byte>, bytes: seq<byte>) {
    if |Chunks(s)| <= 0xFF then bytes == s else |bytes| < |s|
  }

  ghost predicate Sound(sent: map<uint32, seq<byte>>, s: Server) {
    && (forall id :: id in s.reassembly ==> id in sent && Genuine(sent[id], s.reassembly[id]))
    && (forall k :: 0 <= k < |s.delivered| ==>
          s.delivered[k].id in sent && Outcome(sent[s.delivered[k].id], s.delivered[k].bytes))
  }

  lemma {:induction false} CollectedAll(chunks: map<byte, seq<byte>>, cs: seq<seq<byte>>, k: nat)
    requires k <= |cs| && k <= 0x100 && forall i :: 0 <= i < k ==> i in chunks && chunks[i] == cs[i]
    ensures Collected(chunks, k) == Concat(cs[..k])
  {
    if k > 0 {
      CollectedAll(chunks, cs, k - 1);
      assert cs[..k][..k - 1] == cs[..k - 1];
    }
  }

  lemma {:induction false} CollectedShort(chunks: map<byte, seq<byte>>, k: nat)
    requires k <= 0x100 && forall x :: x in chunks ==> |chunks[x]| <= MAX_PAYLOAD_BYTES
    ensures |Collected(chunks, k)| <= MAX_PAYLOAD_BYTES * k
  {
    if k > 0 {
      CollectedShort(chunks, k - 1);
    }
  }

  /** Keys below n, and n of them: all keys below n. */
  lemma AllKeys(chunks: map<byte, seq<byte>>, n: nat)
    requires |chunks| == n && forall x :: x in chunks ==> x < n
    ensures forall i: byte :: i < n ==> i in chunks
  {
    forall i: byte | i < n ensures i in chunks {
      if i !in chunks {
        Numbering.SubsetSize<int>(chunks.Keys, Numbering.Interval(0, n) - {i});
        assert false;
      }
    }
  }

  lemma KeysBelow(chunks: map<byte, seq<byte>>, n: nat)
    requires forall x :: x in chunks ==> x < n
    ensures |chunks| <= n
  {
    Numbering.SubsetSize<int>(chunks.Keys, Numbering.Interval(0, n));
  }

  lemma ChunkPosition(cs: seq<seq<byte>>, x: byte, c: seq<byte>)
    requires |cs| <= 0xFF && IsChunk(cs, x, c)
    ensures x < |cs| && c == cs[x]
  {
  }

  lemma FewChunks(s: seq<byte>, b: Buffer)
    requires Genuine(s, b) && |Chunks(s)| <= 0xFF
    ensures |b.chunks| <= |Chunks(s)| == b.total
    ensures forall x :: x in b.chunks ==> x < |Chunks(s)| && b.chunks[x] == Chunks(s)[x]
  {
    hide Chunks, IsChunk;
    forall x | x in b.chunks ensures x < |Chunks(s)| && b.chunks[x] == Chunks(s)[x] {
      ChunkPosition(Chunks(s), x, b.chunks[x]);
    }
    KeysBelow(b.chunks, |Chunks(s)|);
  }

  lemma CompleteIsWhole(s: seq<byte>, b: Buffer)
    requires Genuine(s, b) && Complete(b) && |Chunks(s)| <= 0xFF
    ensures Collected(b.chunks, b.total) == s
  {
    hide Chunks, Genuine, Collected, Concat;
    var cs := Chunks(s);
    FewChunks(s, b);
    AllKeys(b.chunks, |cs|);
    CollectedAll(b.chunks, cs, |cs|);
    assert cs[..|cs|] == cs;
    ConcatChunks(s);
  }

  lemma ManyChunks(s: seq<byte>, b: Buffer)
    requires Genuine(s, b) && |Chunks(s)| > 0xFF
    ensures |Collected(b.chunks, b.total)| < |s|
  {
    hide Collected;
    CollectedShort(b.chunks, b.total);
  }

  lemma GenuineStored(r: Reassembly, id: uint32, s: seq<byte>, i: nat, now: int)
    requires i < |Packets(id, s)| && (id in r ==> Genuine(s, r[id]))
    ensures var p := Parse(Packets(id, s)[i]);
            && p.Some? && p.value.id == id && p.value.index == i % 0x100 && p.value.payload == Chunks(s)[i]
            && Genuine(s, Stored(r, p.value, now))
  {
    hide Chunks, Packet, Parse;
    HeaderRoundTrip(id, i, |Packets(id, s)|, Chunks(s)[i]);
    var p := Parse(Packets(id, s)[i]).value;
    assert IsChunk(Chunks(s), p.index, p.payload);
  }

  lemma ArriveSound(sent: map<uint32, seq<byte>>, s: Server, id: uint32, i: nat, now: int)
    requires Sound(sent, s) && id in sent && i < |Packets(id, sent[id])|
    ensures Sound(sent, Step(sent, s, Arrive(id, i, now)))
  {
    hide Packets, Parse, Genuine, Stored, Collected, Chunks, Complete;
    GenuineStored(s.reassembly, id, sent[id], i, now);
    var b := Stored(s.reassembly, Parse(Packets(id, sent[id])[i]).value, now);
    if Complete(b) {
      if |Chunks(sent[id])| <= 0xFF {
        CompleteIsWhole(sent[id], b);
      } else {
        ManyChunks(sent[id], b);
      }
    }
  }

  lemma {:induction false} RunSound(sent: map<uint32, seq<byte>>, s: Server, actions: seq<Action>)
    requires Sound(sent, s)
    ensures Sound(sent, Run(sent, s, actions))
    decreases |actions|
  {
    hide Handle, Packets, Genuine, Outcome;
    if actions != [] {
      var a := actions[0];
      if a.Arrive? && a.id in sent && a.i < |Packets(a.id, sent[a.id])| {
        ArriveSound(sent, s, a.id, a.i, a.now);
      }
      RunSound(sent, Step(sent, s, a), actions[1..]);
    }
  }

  /** In every run, whatever is lost, duplicated, reordered or discarded: if each ID stands for one byte string, what is
      handed to the decoder is the byte string that was sent, exactly if that has at most 255 chunks. With more it is
      never right. */
  lemma DeliveredIsSent(sent: map<uint32, seq<byte>>, actions: seq<Action>, k: nat)
    requires k < |Run(sent, Server(map[], []), actions).delivered|
    ensures var d := Run(sent, Server(map[], []), actions).delivered[k];
            d.id in sent && (d.bytes == sent[d.id] <==> |Chunks(sent[d.id])| <= 0xFF)
  {
    hide Run, Chunks;
    RunSound(sent, Server(map[], []), actions);
  }

  // ---------------------------------------------------------------- exactly once

  /** The chunks of one bundle that arrive, in order of arrival. */
  function Arrivals(id: uint32, actions: seq<Action>): seq<nat> {
    if actions == [] then []
    else (if actions[0].Arrive? && actions[0].id == id then [actions[0].i] else []) + Arrivals(id, actions[1..])
  }

  /** What was delivered for one ID. */
  function DeliveredFor(id: uint32, ds: seq<Delivery>): seq<seq<byte>> {
    if ds == [] then []
    else
      var n := |ds| - 1;
      DeliveredFor(id, ds[..n]) + if ds[n].id == id then [ds[n].bytes] else []
  }

  lemma DeliveredMore(id: uint32, ds: seq<Delivery>, d: Delivery)
    ensures DeliveredFor(id, ds + [d]) == DeliveredFor(id, ds) + if d.id == id then [d.bytes] else []
  {
    assert (ds + [d])[..|ds|] == ds;
  }

  /** Different chunks of a bundle. */
  ghost predicate Different(s: seq<byte>, ps: seq<nat>) {
    && (forall k :: 0 <= k < |ps| ==> ps[k] < |Chunks(s)|)
    && (forall j, k :: 0 <= j < k < |ps| ==> ps[j] != ps[k])
  }

  /** The buffer of a bundle that holds the chunks `held`, the last of which arrived at `last`; no buffer holds none. */
  ghost predicate Collecting(s: seq<byte>, r: Reassembly, id: uint32, held: seq<nat>, last: int) {
    if held == [] then id !in r
    else
      && id in r && Genuine(s, r[id]) && r[id].lastSeen == last
      && |r[id].chunks| == |held| && forall x :: x in r[id].chunks ==> x in held
  }

  lemma NewChunkCounts(r: Reassembly, s: seq<byte>, id: uint32, held: seq<nat>, last: int, p: Parts, now: int)
    requires |Chunks(s)| <= 0xFF && Collecting(s, r, id, held, last) && p.id == id && p.index !in held
    ensures var b := Stored(r, p, now);
            |b.chunks| == |held| + 1 && b.lastSeen == now && forall x :: x in b.chunks ==> x in held + [p.index]
  {
    hide Chunks, Genuine;
    if id in r {
      assert p.index !in r[id].chunks;
      assert r[id].chunks[p.index := p.payload].Keys == r[id].chunks.Keys + {p.index};
    }
  }

  lemma CollectingGenuine(s: seq<byte>, r: Reassembly, id: uint32, held: seq<nat>, last: int)
    requires Collecting(s, r, id, held, last)
    ensures id in r ==> Genuine(s, r[id])
  {
    hide Chunks, Genuine;
  }

  lemma CollectingNext(s: seq<byte>, r: Reassembly, id: uint32, held: seq<nat>, i: nat, b: Buffer)
    requires Genuine(s, b) && b.total == |Chunks(s)| && |b.chunks| == |held| + 1 <= |Chunks(s)| <= 0xFF
    requires forall x :: x in b.chunks ==> x in held + [i]
    ensures Complete(b) <==> |held| + 1 == |Chunks(s)|
    ensures var after := if Complete(b) then r - {id} else r[id := b];
            Collecting(s, after, id, if Complete(b) then [] else held + [i], b.lastSeen)
  {
    hide Chunks, Genuine;
  }

  lemma ArriveOnce(sent: map<uint32, seq<byte>>, s: Server, id: uint32, i: nat, now: int, held: seq<nat>, last: int)
    requires id in sent && |Chunks(sent[id])| <= 0xFF && i < |Chunks(sent[id])| && i !in held
    requires Collecting(sent[id], s.reassembly, id, held, last) && |held| < |Chunks(sent[id])|
    ensures var t := Step(sent, s, Arrive(id, i, now));
            var complete := |held| + 1 == |Chunks(sent[id])|;
            && Collecting(sent[id], t.reassembly, id, if complete then [] else held + [i], now)
            && DeliveredFor(id, t.delivered) == DeliveredFor(id, s.delivered) + if complete then [sent[id]] else []
  {
    hide Chunks, Packets, Parse, Genuine, Stored, Collected, Step, DeliveredFor, Complete, Collecting;
    var x := sent[id];
    CollectingGenuine(x, s.reassembly, id, held, last);
    GenuineStored(s.reassembly, id, x, i, now);
    var p := Parse(Packets(id, x)[i]).value;
    var b := Stored(s.reassembly, p, now);
    NewChunkCounts(s.reassembly, x, id, held, last, p, now);
    FewChunks(x, b);
    CollectingNext(x, s.reassembly, id, held, i, b);
    StepArrive(sent, s, id, i, now);
    if Complete(b) {
      CompleteIsWhole(x, b);
      DeliveredMore(id, s.delivered, Delivery(id, x));
    } else {
      assert s.delivered + [] == s.delivered;
    }
  }

  lemma StepArrive(sent: map<uint32, seq<byte>>, s: Server, id: uint32, i: nat, now: int)
    requires id in sent && i < |Packets(id, sent[id])|
    requires var p := Parse(Packets(id, sent[id])[i]); p.Some? && p.value.id == id
    ensures var b := Stored(s.reassembly, Parse(Packets(id, sent[id])[i]).value, now);
            var more := if Complete(b) then [Delivery(id, Collected(b.chunks, b.total))] else [];
            var r := if Complete(b) then s.reassembly - {id} else s.reassembly[id := b];
            Step(sent, s, Arrive(id, i, now)) == Server(r, s.delivered + more)
  {
    hide Packets, Parse, Stored, Collected, Complete;
  }

  /** What happens to other bundles' packets does not touch the buffer for an ID, and delivers nothing under it. */
  lemma ArriveOther(sent: map<uint32, seq<byte>>, s: Server, a: Action, id: uint32)
    requires a.Arrive? && a.id != id
    ensures var t := Step(sent, s, a);
            && (id in t.reassembly <==> id in s.reassembly)
            && (id in s.reassembly ==> t.reassembly[id] == s.reassembly[id])
            && DeliveredFor(id, t.delivered) == DeliveredFor(id, s.delivered)
  {
    hide Chunks, Packets, Parse, Stored, Collected, Complete, Packet;
    if a.id in sent && a.i < |Packets(a.id, sent[a.id])| {
      HeaderRoundTripOf(a.id, sent[a.id], a.i);
      var full := Handle(s.reassembly, Packets(a.id, sent[a.id])[a.i], a.now).1;
      if full.Some? {
        DeliveredMore(id, s.delivered, Delivery(a.id, full.value));
      } else {
        assert s.delivered + [] == s.delivered;
      }
    }
  }

  lemma HeaderRoundTripOf(id: uint32, s: seq<byte>, i: nat)
    requires i < |Packets(id, s)|
    ensures Parse(Packets(id, s)[i]).Some? && Parse(Packets(id, s)[i]).value.id == id
  {
    hide Chunks, Packet, Parse;
    HeaderRoundTrip(id, i, |Packets(id, s)|, Chunks(s)[i]);
  }

  /** From an arrival for the ID at `last`, if there was one, until the last arrival for it: whenever old buffers are
      discarded, the latest arrival lies at most a minute back. */
  predicate InTime(id: uint32, last: Option<int>, actions: seq<Action>)
    decreases |actions|
  {
    Arrivals(id, actions) == [] ||
    match actions[0]
    case Arrive(x, _, now) => InTime(id, if x == id then Some(now) else last, actions[1..])
    case Discard(now) => (last.Some? ==> now - last.value <= 60) && InTime(id, last, actions[1..])
  }

  /** A bundle is going to be delivered: no chunk was lost that had arrived, and the others come in time. */
  predicate WillDeliver(id: uint32, n: nat, seen: seq<nat>, held: seq<nat>, last: int, actions: seq<Action>) {
    && |seen| < n == |seen| + |Arrivals(id, actions)|
    && |held| == |seen| && InTime(id, if held == [] then None else Some(last), actions)
  }

  lemma {:induction false} RunOnce(sent: map<uint32, seq<byte>>, s: Server, actions: seq<Action>, id: uint32, seen: seq<nat>,
                                   held: seq<nat>, last: int)
    requires id in sent && sent[id] != [] && |Chunks(sent[id])| <= 0xFF && Different(sent[id], seen + Arrivals(id, actions))
    requires |seen| + |Arrivals(id, actions)| <= |Chunks(sent[id])|
    requires Collecting(sent[id], s.reassembly, id, held, last)
    requires (forall x :: x in held ==> x in seen) && |held| <= |seen| && |held| < |Chunks(sent[id])|
    ensures var t := Run(sent, s, actions);
            var will := WillDeliver(id, |Chunks(sent[id])|, seen, held, last, actions);
            && DeliveredFor(id, t.delivered) == DeliveredFor(id, s.delivered) + (if will then [sent[id]] else [])
            && (will ==> id !in t.reassembly)
    decreases |actions|
  {
    hide Chunks, Collecting, Different, DeliveredFor, Step, Genuine;
    var n := |Chunks(sent[id])|;
    if actions == [] {
    } else {
      var a, others := actions[0], actions[1..];
      var t := Step(sent, s, a);
      if a.Arrive? && a.id == id {
        assert seen + Arrivals(id, actions) == (seen + [a.i]) + Arrivals(id, others);
        NextIsNew(sent[id], seen, a.i, Arrivals(id, others));
        ArriveOnce(sent, s, id, a.i, a.now, held, last);
        if |held| + 1 == n {
          assert |Arrivals(id, actions)| == 1 + |Arrivals(id, others)|;
          assert Arrivals(id, others) == [] && |seen| == |held|;
          assert InTime(id, Some(a.now), others);
          assert InTime(id, if held == [] then None else Some(last), actions);
          NoBuffer(sent[id], t.reassembly, id, a.now);
          NothingMore(sent, t, others, id);
        } else {
          RunOnce(sent, t, others, id, seen + [a.i], held + [a.i], a.now);
        }
      } else if a.Arrive? {
        assert Arrivals(id, actions) == Arrivals(id, others);
        ArriveOther(sent, s, a, id);
        CollectingSame(sent[id], s.reassembly, t.reassembly, id, held, last);
        RunOnce(sent, t, others, id, seen, held, last);
      } else {
        assert Arrivals(id, actions) == Arrivals(id, others);
        DiscardOnce(sent, s, a.now, id, held, last);
        RunOnce(sent, t, others, id, seen, if a.now - last > 60 then [] else held, last);
      }
    }
  }

  /** The next chunk has not arrived before. */
  lemma NextIsNew(s: seq<byte>, seen: seq<nat>, i: nat, later: seq<nat>)
    requires Different(s, (seen + [i]) + later)
    ensures i !in seen && i < |Chunks(s)|
  {
    var all := (seen + [i]) + later;
    assert all[|seen|] == i;
    assert forall j :: 0 <= j < |seen| ==> all[j] == seen[j] && all[j] != all[|seen|];
  }

  lemma CollectingSame(s: seq<byte>, r: Reassembly, u: Reassembly, id: uint32, held: seq<nat>, last: int)
    requires Collecting(s, r, id, held, last) && (id in u <==> id in r) && (id in r ==> u[id] == r[id])
    ensures Collecting(s, u, id, held, last)
  {
  }

  lemma DiscardOnce(sent: map<uint32, seq<byte>>, s: Server, now: int, id: uint32, held: seq<nat>, last: int)
    requires id in sent && Collecting(sent[id], s.reassembly, id, held, last)
    ensures var t := Step(sent, s, Discard(now));
            && Collecting(sent[id], t.reassembly, id, if now - last > 60 then [] else held, last)
            && t.delivered == s.delivered
  {
    hide Genuine;
  }

  lemma NoBuffer(s: seq<byte>, r: Reassembly, id: uint32, last: int)
    requires Collecting(s, r, id, [], last)
    ensures id !in r
  {
  }

  /** Without a further arrival for an ID no buffer comes into being for it, and nothing is delivered. */
  lemma {:induction false} NothingMore(sent: map<uint32, seq<byte>>, s: Server, actions: seq<Action>, id: uint32)
    requires Arrivals(id, actions) == [] && id !in s.reassembly
    ensures id !in Run(sent, s, actions).reassembly
    ensures DeliveredFor(id, Run(sent, s, actions).delivered) == DeliveredFor(id, s.delivered)
    decreases |actions|
  {
    hide Step, DeliveredFor;
    if actions != [] {
      StepOther(sent, s, actions[0], id);
      NothingMore(sent, Step(sent, s, actions[0]), actions[1..], id);
    }
  }

  lemma StepOther(sent: map<uint32, seq<byte>>, s: Server, a: Action, id: uint32)
    requires a.Arrive? ==> a.id != id
    ensures var t := Step(sent, s, a);
            && (id in t.reassembly ==> id in s.reassembly && t.reassembly[id] == s.reassembly[id])
            && DeliveredFor(id, t.delivered) == DeliveredFor(id, s.delivered)
            && (a.Discard? && id in s.reassembly ==> (id in t.reassembly <==> a.now - s.reassembly[id].lastSeen <= 60))
  {
    if a.Arrive? {
      ArriveOther(sent, s, a, id);
    }
  }

  /** The chunks of a bundle with at most 255 of them arrive at most once each, in any order and between the packets of other
      bundles, and old buffers are discarded now and then. The bundle is delivered once if all chunks arrive and each discard
      between the first and the last of them comes at most a minute after the latest; its buffer is gone then. Otherwise it is
      not delivered at all. */
  lemma DeliveredExactlyOnce(sent: map<uint32, seq<byte>>, s: Server, actions: seq<Action>, id: uint32)
    requires id in sent && sent[id] != [] && |Chunks(sent[id])| <= 0xFF && id !in s.reassembly
    requires Different(sent[id], Arrivals(id, actions))
    ensures var t := Run(sent, s, actions);
            var will := |Arrivals(id, actions)| == |Chunks(sent[id])| && InTime(id, None, actions);
            && DeliveredFor(id, t.delivered) == DeliveredFor(id, s.delivered) + (if will then [sent[id]] else [])
            && (will ==> id !in t.reassembly)
  {
    hide Chunks, Run, DeliveredFor, Different, Genuine;
    assert [] + Arrivals(id, actions) == Arrivals(id, actions);
    AtMostAll(sent[id], Arrivals(id, actions));
    SomeChunks(sent[id]);
    RunOnce(sent, s, actions, id, [], [], 0);
  }

  lemma SomeChunks(s: seq<byte>)
    requires s != []
    ensures |Chunks(s)| > 0
  {
  }

  lemma {:induction false} AtMostAll(s: seq<byte>, ps: seq<nat>)
    requires Different(s, ps)
    ensures |ps| <= |Chunks(s)|
  {
    hide Chunks;
    var keys := set k | 0 <= k < |ps| :: ps[k];
    DifferentSize(s, ps);
    Numbering.SubsetSize<int>(keys, Numbering.Interval(0, |Chunks(s)|));
  }

  lemma {:induction false} DifferentSize(s: seq<byte>, ps: seq<nat>)
    requires Different(s, ps)
    ensures |set k | 0 <= k < |ps| :: ps[k]| == |ps|
  {
    hide Chunks;
    if ps != [] {
      var n := |ps| - 1;
      DifferentSize(s, ps[..n]);
      var before := set k | 0 <= k < n :: ps[..n][k];
      assert (set k | 0 <= k < |ps| :: ps[k]) == before + {ps[n]};
      assert ps[n] !in before;
    }
  }

  /** A buffer is discarded exactly if more than a minute has passed since the latest arrival for its ID: after an arrival at
      `t` and whatever else happens, but no other arrival for the ID, old buffers are discarded. */
  lemma DiscardedExactly(sent: map<uint32, seq<byte>>, s: Server, id: uint32, i: nat, t: int, others: seq<Action>, now: int)
    requires id in sent && i < |Packets(id, sent[id])| && Arrivals(id, others) == []
    ensures var before := Run(sent, Step(sent, s, Arrive(id, i, t)), others);
            var after := Step(sent, before, Discard(now));
            && (now - t > 60 ==> id !in after.reassembly)
            && (now - t <= 60 ==> (id in after.reassembly <==> id in before.reassembly))
  {
    hide Step, Run, Packets, Parse, Stored, Complete, Collected;
    var next := Step(sent, s, Arrive(id, i, t));
    HeaderRoundTripOf(id, sent[id], i);
    StepArrive(sent, s, id, i, t);
    StoredNow(s.reassembly, Parse(Packets(id, sent[id])[i]).value, t);
    SeenStays(sent, next, others, id, t);
    StepOther(sent, Run(sent, next, others), Discard(now), id);
  }

  lemma StoredNow(r: Reassembly, p: Parts, now: int)
    ensures Stored(r, p, now).lastSeen == now
  {
  }

  lemma {:induction false} SeenStays(sent: map<uint32, seq<byte>>, s: Server, actions: seq<Action>, id: uint32, last: int)
    requires Arrivals(id, actions) == [] && (id in s.reassembly ==> s.reassembly[id].lastSeen == last)
    ensures var t := Run(sent, s, actions); id in t.reassembly ==> t.reassembly[id].lastSeen == last
    decreases |actions|
  {
    hide Step;
    if actions != [] {
      StepOther(sent, s, actions[0], id);
      SeenStays(sent, Step(sent, s, actions[0]), actions[1..], id, last);
    }
  }

  // ---------------------------------------------------------------- too many chunks

  /** The first `k` chunks, as a buffer has them. */
  function FirstChunks(cs: seq<seq<byte>>, k: nat): (m: map<byte, seq<byte>>)
    requires k <= |cs| && k <= 0x100
  {
    map i: byte | i < k :: cs[i]
  }

  lemma FirstChunksSize(cs: seq<seq<byte>>, k: nat)
    requires k <= |cs| && k <= 0x100
    ensures |FirstChunks(cs, k)| == k
  {
    if k > 0 {
      FirstChunksSize(cs, k - 1);
      FirstChunksNext(cs, k - 1);
    }
  }

  lemma FirstChunksNext(cs: seq<seq<byte>>, k: nat)
    requires k < |cs| && k < 0x100
    ensures FirstChunks(cs, 0) == map[] && FirstChunks(cs, k + 1) == FirstChunks(cs, k)[k := cs[k]]
  {
  }

  /** So many chunks make the eight-bit count of the chunks that have arrived equal to that of all of them. */
  function MistakenForAll(n: nat): nat {
    if n % 0x100 == 0 then 0x100 else n % 0x100
  }

  /** The receiver once the first `k` chunks have arrived. */
  function AfterFirst(id: uint32, cs: seq<seq<byte>>, k: nat, now: int): Server
    requires k < MistakenForAll(|cs|) && k <= |cs|
  {
    Server(if k == 0 then map[] else map[id := Buffer(FirstChunks(cs, k), |cs| % 0x100, now)], [])
  }

  function InOrder(id: uint32, k: nat, m: nat, now: int): seq<Action>
    decreases m - k
  {
    if k >= m then [] else [Arrive(id, k, now)] + InOrder(id, k + 1, m, now)
  }

  lemma NextChunk(id: uint32, cs: seq<seq<byte>>, k: nat, now: int)
    requires k < MistakenForAll(|cs|) && k < |cs|
    ensures var b := Stored(AfterFirst(id, cs, k, now).reassembly, Parts(id, k, |cs| % 0x100, cs[k]), now);
            b == Buffer(FirstChunks(cs, k + 1), |cs| % 0x100, now) && (Complete(b) <==> k + 1 == MistakenForAll(|cs|))
  {
    hide FirstChunks;
    FirstChunksSize(cs, k + 1);
    FirstChunksNext(cs, k);
  }

  lemma {:induction false} RestInOrder(sent: map<uint32, seq<byte>>, id: uint32, k: nat, now: int)
    requires id in sent && |Chunks(sent[id])| > 0xFF && k < MistakenForAll(|Chunks(sent[id])|)
    ensures var cs := Chunks(sent[id]);
            Run(sent, AfterFirst(id, cs, k, now), InOrder(id, k, MistakenForAll(|cs|), now))
              == Server(map[], [Delivery(id, Concat(cs[..|cs| % 0x100]))])
    decreases 0x100 - k
  {
    hide Chunks, Packets, Packet, Parse, Stored, Collected, Concat, Complete, Step;
    var x := sent[id];
    var cs := Chunks(x);
    var m := MistakenForAll(|cs|);
    var s := AfterFirst(id, cs, k, now);
    HeaderRoundTrip(id, k, |cs|, cs[k]);
    assert Parse(Packets(id, x)[k]) == Some(Parts(id, k, |cs| % 0x100, cs[k]));
    StepArrive(sent, s, id, k, now);
    NextChunk(id, cs, k, now);
    var t := Step(sent, s, Arrive(id, k, now));
    assert InOrder(id, k, m, now)[0] == Arrive(id, k, now) && InOrder(id, k, m, now)[1..] == InOrder(id, k + 1, m, now);
    if k + 1 == m {
      CollectedAll(FirstChunks(cs, m), cs, |cs| % 0x100);
      OnlyBuffer(s.reassembly, id);
      assert Run(sent, t, []) == t;
    } else {
      assert s.reassembly[id := Buffer(FirstChunks(cs, k + 1), |cs| % 0x100, now)] == AfterFirst(id, cs, k + 1, now).reassembly;
      assert s.delivered + [] == [];
      RestInOrder(sent, id, k + 1, now);
    }
  }

  lemma OnlyBuffer(r: Reassembly, id: uint32)
    requires forall x :: x in r ==> x == id
    ensures r - {id} == map[]
  {
  }

  /** A bundle of more than 255 chunks, of which as many arrive in order as the eight-bit count announces, or 256 if that is
      zero: something is delivered, and it is cut. */
  lemma LongIsCut(sent: map<uint32, seq<byte>>, id: uint32, now: int)
    requires id in sent && |Chunks(sent[id])| > 0xFF
    ensures var cs := Chunks(sent[id]);
            var cut := Concat(cs[..|cs| % 0x100]);
            && Run(sent, Server(map[], []), InOrder(id, 0, MistakenForAll(|cs|), now)) == Server(map[], [Delivery(id, cut)])
            && cut != sent[id]
  {
    hide Chunks, Run, Concat, InOrder;
    var m := MistakenForAll(|Chunks(sent[id])|);
    RestInOrder(sent, id, 0, now);
    DeliveredIsSent(sent, InOrder(id, 0, m, now), 0);
  }

  // ---------------------------------------------------------------- IDs

  /** The ID is not unique. When chunks of two bundles of two chunks each meet, whose creation times differ by a multiple of
      2^32 or not at all, what is delivered is the beginning of one and the end of the other. */
  lemma SameIDMixesBundles(t: uint64, a: seq<byte>, u: uint64, b: seq<byte>, now: int)
    requires |Chunks(a)| == |Chunks(b)| == 2 && (t - u) % TWO_TO_THE_32 == 0
    ensures var r := Handle(map[], Packets(PacketID(t), a)[0], now).0;
            var mixed := Chunks(a)[0] + Chunks(b)[1];
            && Handle(r, Packets(PacketID(u), b)[1], now) == (map[], Some(mixed))
            && (mixed == a <==> Chunks(a)[1] == Chunks(b)[1]) && (mixed == b <==> Chunks(a)[0] == Chunks(b)[0])
  {
    hide Chunks, Packet, Handle;
    TwoChunks(a);
    TwoChunks(b);
    SameParts(Chunks(a)[0], Chunks(b)[1], Chunks(a)[0], Chunks(a)[1]);
    SameParts(Chunks(a)[0], Chunks(b)[1], Chunks(b)[0], Chunks(b)[1]);
    var id := PacketID(t);
    assert PacketID(u) == id;
    SmallChunks(a);
    SmallChunks(b);
    HandleFirst(id, Chunks(a)[0], now);
    HandleSecond(id, Chunks(a)[0], Chunks(b)[1], now);
  }

  lemma SmallChunks(s: seq<byte>)
    ensures forall c :: c in Chunks(s) ==> |c| < TWO_TO_THE_16
  {
  }

  lemma TwoChunks(s: seq<byte>)
    requires |Chunks(s)| == 2
    ensures s == Chunks(s)[0] + Chunks(s)[1] && |Chunks(s)[0]| == MAX_PAYLOAD_BYTES
  {
    hide Chunks;
    ConcatChunks(s);
    var cs := Chunks(s);
    assert cs == [cs[0]] + [cs[1]] && [cs[1]] == [cs[1]] + cs[2..];
    ConcatCons(cs[0], [cs[1]]);
    ConcatCons(cs[1], cs[2..]);
    assert Concat(cs[2..]) == [];
  }

  lemma SameParts(x: seq<byte>, y: seq<byte>, u: seq<byte>, v: seq<byte>)
    requires |x| == |u|
    ensures x + y == u + v <==> x == u && y == v
  {
    assert (x + y)[..|x|] == x && (x + y)[|x|..] == y && (u + v)[..|x|] == u && (u + v)[|x|..] == v;
  }

  lemma HandleFirst(id: uint32, c: seq<byte>, now: int)
    requires |c| < TWO_TO_THE_16
    ensures Handle(map[], Packet(id, 0, 2, c), now) == (map[id := Buffer(map[0 := c], 2, now)], None)
  {
    hide Packet, Parse, Collected;
    HeaderRoundTrip(id, 0, 2, c);
    var one: map<byte, seq<byte>> := map[0 := c];
    assert |one| == 1;
  }

  lemma HandleSecond(id: uint32, c: seq<byte>, d: seq<byte>, now: int)
    requires |d| < TWO_TO_THE_16
    ensures Handle(map[id := Buffer(map[0 := c], 2, now)], Packet(id, 1, 2, d), now) == (map[], Some(c + d))
  {
    hide Packet, Parse, Collected, Stored, Complete, Handle;
    HeaderRoundTrip(id, 1, 2, d);
    StoredSecond(id, c, d, now);
    TwoCollected(c, d);
    HandleComplete(map[id := Buffer(map[0 := c], 2, now)], Packet(id, 1, 2, d), now);
  }

  lemma HandleComplete(r: Reassembly, data: seq<byte>, now: int)
    requires Parse(data).Some? && Complete(Stored(r, Parse(data).value, now))
    ensures var b := Stored(r, Parse(data).value, now);
            Handle(r, data, now) == (r - {Parse(data).value.id}, Some(Collected(b.chunks, b.total)))
  {
    hide Parse, Collected, Stored, Complete;
  }

  lemma StoredSecond(id: uint32, c: seq<byte>, d: seq<byte>, now: int)
    ensures var b := Stored(map[id := Buffer(map[0 := c], 2, now)], Parts(id, 1, 2, d), now);
            b == Buffer(map[0 := c, 1 := d], 2, now) && Complete(b)
  {
    var both: map<byte, seq<byte>> := map[0 := c, 1 := d];
    assert both.Keys == {0, 1} && |both| == |both.Keys| == 2;
    var one: map<byte, seq<byte>> := map[0 := c];
    assert one[1 := d] == both;
  }

  lemma TwoCollected(c: seq<byte>, d: seq<byte>)
    ensures Collected(map[0 := c, 1 := d], 2) == c + d
  {
    var both: map<byte, seq<byte>> := map[0 := c, 1 := d];
    assert Collected(both, 1) == [] + c;
    assert [] + c == c;
  }
}
