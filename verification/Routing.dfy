/** Routing algorithms: which peers a stored bundle is sent to next. */
module Routing {
  import opened Bytes
  import opened Endpoint
  import opened Blocks
  import opened Numbering
  import opened Bundles
  import opened Store
  import opened Forwarding

  /** A convergence layer sender: the peer it leads to, and its own address. */
  datatype Sender = Sender(peer: EndpointID, address: seq<byte>)

  // ---------------------------------------------------------------- filtering

  /** The senders whose peers are not known to have the bundle. */
  function FilterPeers(known: seq<EndpointID>, peers: seq<Sender>): (r: seq<Sender>)
    ensures |r| <= |peers|
  {
    if peers == [] then []
    else
      var n := |peers| - 1;
      FilterPeers(known, peers[..n]) + if peers[n].peer in known then [] else [peers[n]]
  }

  /** No sender to a known holder is left; every other one is, as often as before. */
  lemma {:induction false} FilterMeaning(known: seq<EndpointID>, peers: seq<Sender>, cs: Sender)
    ensures multiset(FilterPeers(known, peers))[cs] == if cs.peer in known then 0 else multiset(peers)[cs]
  {
    if peers != [] {
      var n := |peers| - 1;
      FilterMeaning(known, peers[..n], cs);
      assert peers == peers[..n] + [peers[n]];
    }
  }

  lemma FilteredPeers(known: seq<EndpointID>, peers: seq<Sender>)
    ensures forall cs :: cs in FilterPeers(known, peers) <==> cs in peers && cs.peer !in known
  {
    hide FilterPeers;
    forall cs ensures cs in FilterPeers(known, peers) <==> cs in peers && cs.peer !in known {
      FilterMeaning(known, peers, cs);
      assert cs in FilterPeers(known, peers) <==> cs in multiset(FilterPeers(known, peers));
      assert cs in peers <==> cs in multiset(peers);
    }
  }

  method IsKnown(known: seq<EndpointID>, peer: EndpointID) returns (skip: bool)
    ensures skip <==> peer in known
  {
    for i := 0 to |known|
      invariant peer !in known[..i]
    {
      if known[i] == peer {
        return true;
      }
    }
    return false;
  }

  /** For a deleted bundle there are no peers. */
  method FilterPeersOf(descriptor: BundleDescriptor, clas: seq<Sender>) returns (filtered: seq<Sender>)
    ensures filtered == if descriptor.deleted then [] else FilterPeers(descriptor.metadata.holders, clas)
  {
    filtered := [];
    if descriptor.deleted {
      return;
    }
    for i := 0 to |clas|
      invariant filtered == FilterPeers(descriptor.metadata.holders, clas[..i])
    {
      assert clas[..i + 1][..i] == clas[..i];
      var skip := IsKnown(descriptor.metadata.holders, clas[i].peer);
      if !skip {
        filtered := filtered + [clas[i]];
      }
    }
    assert clas[..|clas|] == clas;
  }

  function PeerSet(peers: seq<Sender>): set<EndpointID> {
    if peers == [] then {} else PeerSet(peers[..|peers| - 1]) + {peers[|peers| - 1].peer}
  }

  /** One sender for each peer. */
  function Unique(peers: seq<Sender>): seq<Sender> {
    if peers == [] then []
    else
      var n := |peers| - 1;
      Unique(peers[..n]) + if peers[n].peer in PeerSet(peers[..n]) then [] else [peers[n]]
  }

  method UniquePeers(peers: seq<Sender>) returns (unique: seq<Sender>)
    ensures unique == Unique(peers)
  {
    var endpoints := {};
    unique := [];
    for k := 0 to |peers|
      invariant endpoints == PeerSet(peers[..k]) && unique == Unique(peers[..k])
    {
      assert peers[..k + 1][..k] == peers[..k];
      if peers[k].peer !in endpoints {
        unique := unique + [peers[k]];
      }
      endpoints := endpoints + {peers[k].peer};
    }
    assert peers[..|peers|] == peers;
  }

  lemma {:induction false} InPeerSet(peers: seq<Sender>, k: nat)
    requires k < |peers|
    ensures peers[k].peer in PeerSet(peers)
  {
    if k < |peers| - 1 {
      InPeerSet(peers[..|peers| - 1], k);
    }
  }

  lemma PeerSetAppend(peers: seq<Sender>, cs: Sender)
    ensures PeerSet(peers + [cs]) == PeerSet(peers) + {cs.peer}
  {
    assert (peers + [cs])[..|peers|] == peers;
  }

  /** Every peer is still reached. */
  lemma {:induction false} UniqueReachesAll(peers: seq<Sender>)
    ensures PeerSet(Unique(peers)) == PeerSet(peers)
  {
    if peers != [] {
      var n := |peers| - 1;
      UniqueReachesAll(peers[..n]);
      if peers[n].peer in PeerSet(peers[..n]) {
        assert Unique(peers) == Unique(peers[..n]);
      } else {
        PeerSetAppend(Unique(peers[..n]), peers[n]);
      }
    }
  }

  /** No peer is reached twice. */
  lemma {:induction false} UniqueIsUnique(peers: seq<Sender>)
    ensures forall i, j :: 0 <= i < j < |Unique(peers)| ==> Unique(peers)[i].peer != Unique(peers)[j].peer
  {
    if peers != [] {
      var n := |peers| - 1;
      var before := Unique(peers[..n]);
      UniqueIsUnique(peers[..n]);
      UniqueReachesAll(peers[..n]);
      forall i | 0 <= i < |before| ensures before[i].peer in PeerSet(peers[..n]) {
        InPeerSet(before, i);
      }
    }
  }

  /** The first sender to each peer is the one that is kept. */
  lemma {:induction false} UniqueKeepsFirst(peers: seq<Sender>, k: nat)
    requires k < |peers| && peers[k].peer !in PeerSet(peers[..k])
    ensures peers[k] in Unique(peers)
  {
    var n := |peers| - 1;
    if k < n {
      assert peers[..n][..k] == peers[..k];
      UniqueKeepsFirst(peers[..n], k);
    }
  }

  // ---------------------------------------------------------------- spray and wait

  /** The peers to send to, the copies kept, and those given away in a spray block. */
  datatype Selection = Selection(peers: seq<Sender>, kept: uint64, sent: Option<uint64>)

  /** What spray and wait selects among the candidates. `loads` tells whether the bundle can be read from disk, `pick` is
      the random choice. */
  function Select(binary: bool, copies: uint64, candidates: seq<Sender>, loads: bool, pick: nat): Selection {
    if candidates == [] || copies == 0 || (binary && (copies == 1 || !loads)) then Selection([], copies, None)
    else if binary then Selection([candidates[pick % |candidates|]], copies - copies / 2, Some(copies / 2))
    else
      var n := if |candidates| <= copies then |candidates| else copies;
      Selection(candidates[..n], copies - n, None)
  }

  /** No copy is made up or lost: in binary mode the one selected peer gets half of the copies, rounded down, and is sent
      to only if both sides end up with one at least; in basic mode every peer selected costs a copy, peers are taken in
      order, and none is left out while copies are left. */
  lemma SelectConserves(binary: bool, copies: uint64, candidates: seq<Sender>, loads: bool, pick: nat)
    ensures var s := Select(binary, copies, candidates, loads, pick);
            && (binary ==> (s.sent.Some? <==> |s.peers| == 1) && |s.peers| <= 1)
            && (s.sent.Some? ==> s.sent.value + s.kept == copies && 1 <= s.sent.value <= s.kept <= s.sent.value + 1)
            && (s.sent.Some? ==> s.peers[0] in candidates)
            && (!binary ==> s.sent.None? && |s.peers| + s.kept == copies && s.peers <= candidates)
            && (!binary ==> s.peers == candidates || s.kept == 0)
            && (s.peers == [] ==> s.kept == copies)
  {
  }

  /** Binary mode sends to any of the candidates, as the random choice falls. */
  lemma AnyMayBePicked(copies: uint64, candidates: seq<Sender>, i: nat)
    requires copies > 1 && i < |candidates|
    ensures Select(true, copies, candidates, true, i).peers == [candidates[i]]
  {
    SmallModulus(i, |candidates|);
  }

  lemma SmallModulus(i: nat, n: nat)
    requires i < n
    ensures i % n == i
  {
  }

  /** spray_and_wait/copies */
  const SPRAY_COPIES_KEY: seq<byte> := [0x73, 0x70, 0x72, 0x61, 0x79, 0x5F, 0x61, 0x6E, 0x64, 0x5F, 0x77, 0x61, 0x69, 0x74, 0x2F,
                                       0x63, 0x6F, 0x70, 0x69, 0x65, 0x73]

  /** The copies a descriptor has, if any were saved. */
  function SavedCopies(misc: map<seq<byte>, uint64>): Option<uint64> {
    if SPRAY_COPIES_KEY in misc then Some(misc[SPRAY_COPIES_KEY]) else None
  }

  // ---------------------------------------------------------------- replacing the spray block in place

  /** Positions of the blocks of a type: ExtensionBlocksByType, whose result points into the slice. */
  method FindPointers(slots: array<CanonicalBlock>, code: uint64) returns (ps: seq<nat>)
    ensures ps == Pointers(slots[..], code)
  {
    ps := [];
    for i := 0 to slots.Length
      invariant ps == Pointers(slots[..i], code)
    {
      assert slots[..i + 1][..i] == slots[..i];
      if slots[i].TypeCode() == code {
        ps := ps + [i];
      }
    }
    assert slots[..slots.Length] == slots[..];
  }

  /** Remove slot `i` from the first `len` ones by moving the later ones down. */
  method RemoveSlot(slots: array<CanonicalBlock>, len: nat, i: nat)
    requires i < len <= slots.Length
    modifies slots
    ensures slots[..] == RemoveAt(Slice(old(slots[..]), len), i).slots
  {
    for k := i + 1 to len
      invariant forall j :: 0 <= j < slots.Length ==> slots[j] == old(slots[if i <= j < k - 1 then j + 1 else j])
    {
      slots[k - 1] := slots[k];
    }
  }

  /** RemoveExtensionBlockByBlockNumber on a slice of an array. */
  method RemoveNumbered(slots: array<CanonicalBlock>, len: nat, number: uint64) returns (left: nat)
    requires len <= slots.Length
    modifies slots
    ensures var s := Slice(old(slots[..]), len);
            var i := IndexOfNumber(s.Blocks(), number);
            Slice(slots[..], left) == if i == len then s else RemoveAt(s, i)
  {
    ghost var before := slots[..];
    for i := 0 to len
      invariant slots[..] == before
      invariant IndexOfNumber(before[..len], number) == i + IndexOfNumber(before[i..len], number)
    {
      assert before[i..len][1..] == before[i + 1..len];
      if slots[i].number == number {
        RemoveSlot(slots, len, i);
        return len - 1;
      }
    }
    assert before[len..len] == [];
    return len;
  }

  /** Remove the earlier spray blocks through pointers to them, then add one with the copies for the peer. */
  method ReplaceSprayBlock(b: MutableBundle, copies: uint64)
    requires |b.extensions| < MAX_BLOCKS
    modifies b`extensions
    ensures b.extensions == WithSpray(old(b.extensions), copies)
  {
    hide IndexOfNumber, RemoveAt, RemoveThrough, Pointers, AddBlock;
    ghost var before := b.extensions;
    var blocks := b.extensions;
    var slots := new CanonicalBlock[|blocks|](i requires 0 <= i < |blocks| => blocks[i]);
    assert slots[..] == before;
    var len: nat := slots.Length;
    var ps := FindPointers(slots, TYPE_BINARY_SPRAY);
    ghost var all := RemoveThroughAll(Slice(before, |before|), ps);
    for k := 0 to |ps|
      invariant len <= slots.Length == |before| && b.extensions == before
      invariant RemoveThroughAll(Slice(slots[..], len), ps[k..]) == all
    {
      assert ps[k..][1..] == ps[k + 1..];
      ghost var s := Slice(slots[..], len);
      len := RemoveNumbered(slots, len, slots[ps[k]].number);
      ThroughIsNumbered(s, ps[k]);
      assert Slice(slots[..], len) == RemoveThrough(s, ps[k]);
    }
    b.extensions := slots[..len];
    RemoveTypeShorter(before, TYPE_BINARY_SPRAY);
    b.AddExtensionBlock(SprayBlock(copies));
  }

  lemma ThroughIsNumbered(s: Slice, p: nat)
    requires s.Valid() && p < |s.slots|
    ensures var i := IndexOfNumber(s.Blocks(), s.slots[p].number);
            RemoveThrough(s, p) == if i == s.len then s else RemoveAt(s, i)
  {
    hide IndexOfNumber, RemoveAt;
  }

  // ---------------------------------------------------------------- the algorithm

  class SprayAndWait {
    const copies: uint64
    const binary: bool

    constructor (copies: uint64, binary: bool)
      ensures this.copies == copies && this.binary == binary
    {
      this.copies, this.binary := copies, binary;
    }

    method NotifyNewBundle(descriptor: BundleDescriptor)
      requires descriptor.Listed() && descriptor.store.Valid()
      modifies descriptor`metadata, descriptor.store`disk
      ensures descriptor.store.Valid() && SavedCopies(descriptor.metadata.misc) == Some(copies)
    {
      descriptor.SetMiscData(SPRAY_COPIES_KEY, copies);
    }

    /** A spray block counts in basic mode too. `ok` is false for a failed type assertion. */
    method NotifyReceivedBundle(descriptor: BundleDescriptor, bundle: MutableBundle) returns (ok: bool)
      requires descriptor.Listed() && descriptor.store.Valid()
      modifies descriptor`metadata, descriptor.store`disk
      ensures var r := ReceivedCopies(bundle.extensions);
              ok == r.Copies? && (ok ==> SavedCopies(descriptor.metadata.misc) == Some(r.n))
      ensures descriptor.store.Valid()
    {
      var block := bundle.ExtensionBlockByType(TYPE_BINARY_SPRAY);
      if block.None? {
        descriptor.SetMiscData(SPRAY_COPIES_KEY, 0);
      } else if block.value.value.BinarySpray? {
        descriptor.SetMiscData(SPRAY_COPIES_KEY, block.value.value.copies);
      } else {
        return false;
      }
      return true;
    }

    /** The peers to send to and, in binary mode, the bundle to send. `loaded` is what loading from disk gives. */
    method SelectPeersForForwarding(descriptor: BundleDescriptor, peers: seq<Sender>, loaded: MutableBundle?, pick: nat)
      returns (selected: seq<Sender>, bundle: MutableBundle?)
      requires descriptor.Listed() && descriptor.store.Valid()
      requires loaded != null ==> |loaded.extensions| < MAX_BLOCKS
      modifies descriptor`metadata, descriptor.store`disk, loaded
      ensures descriptor.store.Valid()
      ensures var candidates := if descriptor.deleted then [] else FilterPeers(old(descriptor.metadata.holders), peers);
              var saved := SavedCopies(old(descriptor.metadata.misc));
              var s := Select(binary, if saved.Some? then saved.value else copies, candidates, loaded != null, pick);
              && selected == s.peers && SavedCopies(descriptor.metadata.misc) == Some(s.kept)
              && (bundle == if s.sent.Some? then loaded else null)
              && (s.sent.Some? ==> loaded != null && loaded.extensions == WithSpray(old(loaded.extensions), s.sent.value))
              && (s.sent.None? && loaded != null ==> loaded.extensions == old(loaded.extensions))
    {
      hide FilterPeers, WithSpray, BundleStore.Valid;
      selected, bundle := [], null;
      var saved := SavedCopies(descriptor.metadata.misc);
      var left := copies;
      if saved.Some? {
        left := saved.value;
      } else {
        descriptor.SetMiscData(SPRAY_COPIES_KEY, left);
      }
      if left == 0 || (binary && left <= 1) {
        return;
      }
      var candidates := FilterPeersOf(descriptor, peers);
      if candidates == [] {
        return;
      }
      if binary {
        selected, bundle := SelectBinarySpray(descriptor, left, candidates, loaded, pick);
      } else {
        selected := SelectBasicSpray(descriptor, left, candidates);
      }
    }

    method SelectBasicSpray(descriptor: BundleDescriptor, left: uint64, peers: seq<Sender>) returns (selected: seq<Sender>)
      requires descriptor.Listed() && descriptor.store.Valid() && left > 0 && peers != []
      modifies descriptor`metadata, descriptor.store`disk
      ensures descriptor.store.Valid()
      ensures selected == Select(false, left, peers, true, 0).peers
      ensures SavedCopies(descriptor.metadata.misc) == Some(Select(false, left, peers, true, 0).kept)
    {
      hide BundleStore.Valid;
      var remaining;
      if |peers| <= left {
        remaining := left - |peers|;
        selected := peers;
      } else {
        remaining := 0;
        selected := peers[..left];
      }
      descriptor.SetMiscData(SPRAY_COPIES_KEY, remaining);
    }

    method SelectBinarySpray(descriptor: BundleDescriptor, left: uint64, peers: seq<Sender>, loaded: MutableBundle?, pick: nat)
      returns (selected: seq<Sender>, bundle: MutableBundle?)
      requires descriptor.Listed() && descriptor.store.Valid() && left > 1 && peers != []
      requires loaded != null ==> |loaded.extensions| < MAX_BLOCKS
      requires loaded == null ==> SavedCopies(descriptor.metadata.misc) == Some(left)
      modifies descriptor`metadata, descriptor.store`disk, loaded
      ensures descriptor.store.Valid()
      ensures var s := Select(true, left, peers, loaded != null, pick);
              && selected == s.peers && SavedCopies(descriptor.metadata.misc) == Some(s.kept)
              && (bundle == if s.sent.Some? then loaded else null)
              && (s.sent.Some? ==> loaded != null && loaded.extensions == WithSpray(old(loaded.extensions), s.sent.value))
              && (s.sent.None? && loaded != null ==> loaded.extensions == old(loaded.extensions))
    {
      hide WithSpray, BundleStore.Valid;
      var sendCopies, retainedCopies := left / 2, left / 2;
      if left % 2 != 0 {
        retainedCopies := retainedCopies + 1;
      }
      if loaded == null {
        return [], null;
      }
      ReplaceSprayBlock(loaded, sendCopies);
      descriptor.SetMiscData(SPRAY_COPIES_KEY, retainedCopies);
      return [peers[pick % |peers|]], loaded;
    }
  }

  /** The previous node block of a bundle on its way out. */
  method ReplacePreviousNode(b: MutableBundle, own: EndpointID)
    requires |b.extensions| <= MAX_BLOCKS
    modifies b`extensions
    ensures b.extensions == WithPrevious(old(b.extensions), own)
  {
    hide AddBlock, RemoveNumber, OfType;
    var previous := b.ExtensionBlockByType(TYPE_PREVIOUS_NODE);
    ByTypeMeaning(b);
    if previous.Some? {
      RemoveNumberShorter(b.extensions, previous.value.number);
      b.RemoveExtensionBlockByBlockNumber(previous.value.number);
    }
    b.AddExtensionBlock(PreviousNodeBlock(own));
  }

  lemma ByTypeMeaning(b: MutableBundle)
    ensures var cbs := OfType(b.extensions, TYPE_PREVIOUS_NODE);
            b.ExtensionBlockByType(TYPE_PREVIOUS_NODE) == if |cbs| == 1 then Some(cbs[0]) else None
  {
  }
}
