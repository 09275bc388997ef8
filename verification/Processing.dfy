/** The forwarding procedure of a node (section 5.4 of RFC 9171) up to the transmissions themselves. */
module Processing {
  import opened Endpoint
  import opened Blocks
  import opened Numbering
  import opened Bundles
  import opened StoreMachine
  import opened Store
  import opened Forwarding
  import opened Routing
  import opened SprayNetwork
  import EpidemicNetwork
  import Retention

  /** The share of the node in the network model, while no forwarding is going on. */
  function CarrierOf(m: Metadata, blocks: seq<CanonicalBlock>): Carrier {
    Carrier(SavedCopies(m.misc), m.holders, blocks, [])
  }

  lemma ViewOf(d: BundleDescriptor)
    requires d.Listed()
    ensures d.number < |d.store.View().descriptors| && d.store.View().descriptors[d.number] == d.View()
  {
  }

  /** Mark a bundle as being forwarded instead of waiting for it. */
  method MarkForwarding(d: BundleDescriptor) returns (ok: bool)
    requires d.Listed() && d.store.Valid()
    modifies d, d.store`pending
    ensures d.Listed() && d.store.Valid() && ok == !old(d.deleted)
    ensures d.metadata == old(d.metadata) && d.deleted == old(d.deleted)
    ensures ok ==> Retention.FORWARD_PENDING in d.retentionConstraints && Retention.DISPATCH_PENDING !in d.retentionConstraints
  {
    hide BundleStore.Valid, BundleStore.View, Retention.Without;
    ViewOf(d);
    var err := d.AddConstraint(Retention.FORWARD_PENDING);
    ViewOf(d);
    if err != Retention.NoError {
      return false;
    }
    err := d.RemoveConstraint(Retention.DISPATCH_PENDING);
    ViewOf(d);
    return err == Retention.NoError;
  }

  /** Nobody to send to: all constraints go. */
  method ContraindicateBundle(d: BundleDescriptor)
    requires d.Listed() && d.store.Valid() && !d.deleted
    modifies d, d.store`pending
    ensures d.Listed() && d.store.Valid() && d.metadata == old(d.metadata) && d.retentionConstraints == []
  {
    hide BundleStore.Valid, BundleStore.View;
    ViewOf(d);
    var _ := d.ResetConstraints();
    ViewOf(d);
  }

  /** From the marks to the bundle that is handed to the convergence layers. `loaded` is what is read from disk, null if
      that fails. Peers, copies kept and blocks sent are those of a forwarding in the network model. A bundle for which no
      peer is selected loses its constraints; one that cannot be read after all keeps the mark. */
  method PrepareForwarding(router: SprayAndWait, d: BundleDescriptor, peers: seq<Sender>, loaded: MutableBundle?, pick: nat,
                           own: EndpointID)
    returns (selected: seq<Sender>)
    requires d.Listed() && d.store.Valid() && (loaded != null ==> |loaded.extensions| < MAX_BLOCKS)
    modifies d, d.store`pending, d.store`disk, loaded
    ensures d.store.Valid() && d.Listed()
    ensures old(d.deleted) ==> selected == []
    ensures !old(d.deleted) ==>
              var blocks := if loaded != null then old(loaded.extensions) else [];
              var c := Started(CarrierOf(old(d.metadata), blocks), peers, router.copies);
              var s := Selected(router.binary, c.rounds[0], loaded != null, pick);
              && selected == (if loaded != null then s.peers else [])
              && SavedCopies(d.metadata.misc) == Ended(router.binary, c, 0, loaded != null, pick).saved
              && (selected != [] ==> loaded.extensions == SentBlocks(blocks, s, own))
              && (|blocks| < MAX_BLOCKS ==>
                  Outgoing(blocks, s, loaded != null, own) == if selected == [] then [] else Messages(selected, loaded.extensions))
              && (if s.peers == [] then d.retentionConstraints == [] else Retention.FORWARD_PENDING in d.retentionConstraints)
  {
    hide BundleStore.Valid, BundleStore.View, FilterPeers, Select, WithSpray, WithPrevious;
    var ok := MarkForwarding(d);
    if !ok {
      return [];
    }
    assert d.metadata == old(d.metadata);
    ghost var blocks := if loaded != null then old(loaded.extensions) else [];
    ghost var c := Started(CarrierOf(old(d.metadata), blocks), peers, router.copies);
    ghost var s := Selected(router.binary, c.rounds[0], loaded != null, pick);
    SelectConserves(router.binary, c.rounds[0].read, c.rounds[0].candidates, loaded != null, pick);
    var bundle;
    selected, bundle := router.SelectPeersForForwarding(d, peers, loaded, pick);
    assert selected == s.peers;
    if selected == [] {
      ContraindicateBundle(d);
      return;
    }
    if loaded == null {
      return [];
    }
    if s.sent.Some? {
      AddLength(blocks, s.sent.value);
    }
    ReplacePreviousNode(loaded, own);
  }

  // ---------------------------------------------------------------- the network's steps at one node

  /** A message that a node stores becomes the carrier that the store's metadata make, and one that it has already adds the
      node it comes from to the known holders. */
  lemma StoredAsInserted(cfg: Config, s: Network, k: nat, b: Bundle)
    requires k < |s.flight| && s.flight[k] == Message(cfg.nodeID, b.extensions)
    ensures var t := StoreStep(s, k);
            && cfg.nodeID in t.held && cfg.nodeID in t.carried && t.arrivals == s.arrivals + [s.flight[k]]
            && if cfg.nodeID in s.held
               then t.held[cfg.nodeID] == s.held[cfg.nodeID].(known := s.held[cfg.nodeID].known + PreviousNodes(b.extensions))
               else t.held[cfg.nodeID] == CarrierOf(NewMetadata(cfg, b), b.extensions)
  {
    hide PreviousNodes;
  }

  /** So it is in the flooding network: what a node knows of a bundle that arrives is what the store's metadata say. */
  lemma ArrivedAsInserted(cfg: Config, s: EpidemicNetwork.Network, b: Bundle)
    requires s.Valid()
    ensures var t := EpidemicNetwork.ArriveStep(s, cfg.nodeID, PreviousNodes(b.extensions));
            if cfg.nodeID in s.current
            then
              var l := s.current[cfg.nodeID];
              t == s.(lives := s.lives[l := s.lives[l].(known := s.lives[l].known + PreviousNodes(b.extensions))])
            else
              && t.current == s.current[cfg.nodeID := |s.lives|] && t.drops == s.drops
              && t.lives == s.lives + [EpidemicNetwork.Life(cfg.nodeID, NewMetadata(cfg, b).holders, {}, 0, [])]
  {
    hide PreviousNodes;
  }

  /** A transmission that succeeds: what the node knows then is what the store's metadata say, for a deleted bundle, too. */
  lemma ReachedAsNoted(s: StoreMachine.Store, d: nat, l: EpidemicNetwork.Life, r: nat, peer: EndpointID)
    requires d < |s.descriptors| && r < |l.rounds| && l.known == s.descriptors[d].metadata.holders
    ensures EpidemicNetwork.Reaching(l, !s.descriptors[d].state.deleted, r, peer).known
         == AddKnownHolders(s, d, [peer]).descriptors[d].metadata.holders
  {
  }

  /** The algorithm is told of a received bundle: the carrier has the copies that its metadata have then. */
  method Announce(router: SprayAndWait, d: BundleDescriptor, bundle: MutableBundle, ghost s: Network, ghost k: nat) returns (ok: bool)
    requires d.Listed() && d.store.Valid()
    requires k < |s.arrivals| && s.arrivals[k].blocks == bundle.extensions && s.arrivals[k].to in s.held
    requires s.held[s.arrivals[k].to].saved == SavedCopies(d.metadata.misc)
    modifies d`metadata, d.store`disk
    ensures d.store.Valid()
    ensures ok ==> NotifyStep(s, k).held[s.arrivals[k].to].saved == SavedCopies(d.metadata.misc)
  {
    hide BundleStore.Valid, OfType;
    ok := router.NotifyReceivedBundle(d, bundle);
  }

  /** Once a node has dropped a bundle, what is going on for it has no effect on a bundle that comes again: announcements are
      gone, and forwardings end as orphans with what they had read. */
  lemma DroppedExactly(s: Network, node: EndpointID)
    requires node in s.held
    ensures var t := DropStep(s, node);
            && node !in t.held && (forall n :: n != node ==> (n in t.held <==> n in s.held))
            && (forall m :: m in t.arrivals <==> m in s.arrivals && m.to != node)
            && t.flight == s.flight
            && forall o :: o in t.orphans <==>
                 o in s.orphans || (o.node == node && o.blocks == s.held[node].blocks && o.round in s.held[node].rounds)
  {
    ElsewhereExactly(s.arrivals, node);
    var os := Orphaned(node, s.held[node]);
    forall o ensures o in os <==> o.node == node && o.blocks == s.held[node].blocks && o.round in s.held[node].rounds {
      if o.node == node && o.blocks == s.held[node].blocks && o.round in s.held[node].rounds {
        var i :| 0 <= i < |os| && s.held[node].rounds[i] == o.round;
        assert os[i] == o;
      }
    }
  }

  lemma {:induction false} ElsewhereExactly(ms: seq<Message>, node: EndpointID)
    ensures forall m :: m in SprayNetwork.Elsewhere(ms, node) <==> m in ms && m.to != node
  {
    if ms != [] {
      ElsewhereExactly(ms[1..], node);
      assert ms == [ms[0]] + ms[1..];
    }
  }
}
