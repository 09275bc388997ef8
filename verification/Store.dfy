/** The store and its descriptors as objects. Every method is one locked section of the program; each is proved to take
    the step of the state machine that belongs to it. */
module Store {
  import opened Bytes
  import opened Endpoint
  import opened Blocks
  import opened BundleIds
  import opened StoreMachine
  import Retention

  class BundleDescriptor {
    const store: BundleStore
    var metadata: Metadata
    var retentionConstraints: seq<Retention.Constraint>
    var retain: bool
    var dispatch: bool
    var deleted: bool
    var shouldDelete: bool
    /** Position among all descriptors ever made, and the bundle the descriptor was made for. */
    ghost const number: nat
    ghost const bundle: Bundle

    constructor (store: BundleStore, metadata: Metadata, ghost number: nat, ghost bundle: Bundle)
      ensures this.store == store && this.number == number
      ensures View() == Descriptor(metadata, Retention.FRESH, bundle)
    {
      this.store := store;
      this.metadata := metadata;
      retentionConstraints := [Retention.DISPATCH_PENDING];
      retain, dispatch, deleted, shouldDelete := true, true, false, false;
      this.number := number;
      this.bundle := bundle;
    }

    function State(): Retention.State
      reads this
    {
      Retention.State(retentionConstraints, retain, dispatch, deleted, shouldDelete)
    }

    ghost function View(): Descriptor
      reads this
    {
      Descriptor(metadata, State(), bundle)
    }

    ghost predicate Listed()
      reads store
    {
      number < |store.descriptors| && store.descriptors[number] == this
    }

    /** From the state before, the operation was carried out, and nothing else. */
    twostate predicate Operated(op: Retention.Operation)
      requires old(Listed()) && old(store.Valid())
      reads this, store, store.descriptors
    {
      store.Valid() && store.View() == OperateOn(old(store.View()), number, op)
    }

    /** Enough to see that an operation was carried out: the fields of this descriptor, and the deletions started. */
    twostate lemma FieldsOperated(op: Retention.Operation)
      requires old(Listed()) && old(store.Valid())
      requires State() == Retention.Apply(old(State()), op).0 && metadata == old(metadata)
      requires store.pending == old(store.pending) + if Retention.Spawns(old(State()), op) then [this] else []
      requires store.bundles == old(store.bundles) && store.disk == old(store.disk) && store.descriptors == old(store.descriptors)
      requires forall x :: x in store.descriptors && x != this ==> old(x.View()) == x.View()
      ensures Operated(op)
    {
      hide Retention.Apply;
      store.OneChanged(this);
    }

    /** Likewise for new metadata, which are written to the database too. */
    twostate lemma MetadataSet()
      requires old(Listed()) && old(store.Valid())
      requires State() == old(State()) && store.disk == UpdateRow(old(store.disk), metadata)
      requires store.pending == old(store.pending) && store.bundles == old(store.bundles)
      requires store.descriptors == old(store.descriptors)
      requires forall x :: x in store.descriptors && x != this ==> old(x.View()) == x.View()
      ensures store.Valid() && store.View() == SetMetadata(old(store.View()), number, metadata)
    {
      hide UpdateRow;
      store.OneChanged(this);
    }

    // -------------------------------------------------------------- constraints

    method AddConstraint(c: Retention.Constraint) returns (err: Retention.Error)
      requires Listed() && store.Valid()
      modifies this
      ensures Operated(Retention.Add(c)) && err == Retention.Apply(old(State()), Retention.Add(c)).1
    {
      hide Operated, BundleStore.View, Views, Numbers;
      if deleted {
        err := Retention.BundleDeleted;
      } else if !Retention.KnownConstraint(c) {
        err := Retention.InvalidConstraint;
      } else {
        retentionConstraints := retentionConstraints + [c];
        retain := true;
        if c == Retention.FORWARD_PENDING {
          dispatch := false;
        }
        err := Retention.NoError;
      }
      FieldsOperated(Retention.Add(c));
    }

    method UnsafeDelete() returns (err: Retention.Error)
      requires Listed() && store.Valid()
      modifies this`deleted, store`pending
      ensures (State(), err) == Retention.UnsafeDelete(old(State()))
      ensures store.pending == old(store.pending) + if err == Retention.NoError then [this] else []
    {
      if deleted {
        return Retention.BundleDeleted;
      }
      deleted := true;
      store.pending := store.pending + [this];
      return Retention.NoError;
    }

    /** The constraints but one kind, and whether the bundle may be dispatched with them. */
    method OtherConstraints(c: Retention.Constraint) returns (constraints: seq<Retention.Constraint>, dispatchable: bool)
      ensures constraints == Retention.Without(retentionConstraints, c)
      ensures dispatchable <==> Retention.FORWARD_PENDING !in constraints
    {
      constraints, dispatchable := [], true;
      for i := 0 to |retentionConstraints|
        invariant constraints == Retention.Without(retentionConstraints[..i], c)
        invariant dispatchable <==> Retention.FORWARD_PENDING !in constraints
      {
        assert retentionConstraints[..i + 1][..i] == retentionConstraints[..i];
        if retentionConstraints[i] != c {
          constraints := constraints + [retentionConstraints[i]];
          if retentionConstraints[i] == Retention.FORWARD_PENDING {
            dispatchable := false;
          }
        }
      }
      assert retentionConstraints[..|retentionConstraints|] == retentionConstraints;
    }

    method RemoveConstraint(c: Retention.Constraint) returns (err: Retention.Error)
      requires Listed() && store.Valid()
      modifies this, store`pending
      ensures Operated(Retention.Remove(c)) && err == Retention.Apply(old(State()), Retention.Remove(c)).1
    {
      hide Operated, BundleStore.View, Views, Numbers;
      hide Retention.Without;
      if deleted {
        err := Retention.BundleDeleted;
      } else {
        var constraints, dispatchable := OtherConstraints(c);
        dispatch := dispatchable;
        retentionConstraints := constraints;
        retain := |retentionConstraints| > 0;
        if !retain && shouldDelete {
          var _ := UnsafeDelete();
        }
        err := Retention.NoError;
      }
      FieldsOperated(Retention.Remove(c));
    }

    method ResetConstraints() returns (err: Retention.Error)
      requires Listed() && store.Valid()
      modifies this, store`pending
      ensures Operated(Retention.Reset) && err == Retention.Apply(old(State()), Retention.Reset).1
    {
      hide Operated, BundleStore.View, Views, Numbers;
      if deleted {
        err := Retention.BundleDeleted;
      } else {
        retentionConstraints := [];
        retain := false;
        dispatch := true;
        if shouldDelete {
          var _ := UnsafeDelete();
        }
        err := Retention.NoError;
      }
      FieldsOperated(Retention.Reset);
    }

    method Delete(markIfConstraint: bool) returns (err: Retention.Error)
      requires Listed() && store.Valid()
      modifies this, store`pending
      ensures Operated(Retention.Delete(markIfConstraint))
      ensures err == Retention.Apply(old(State()), Retention.Delete(markIfConstraint)).1
    {
      hide Operated, BundleStore.View, Views, Numbers;
      if |retentionConstraints| > 0 {
        if markIfConstraint {
          shouldDelete := true;
          err := Retention.NoError;
        } else {
          err := Retention.HasConstraints;
        }
      } else {
        err := UnsafeDelete();
      }
      FieldsOperated(Retention.Delete(markIfConstraint));
    }

    method HasConstraint(c: Retention.Constraint) returns (has: Option<bool>)
      ensures has == if deleted then None else Some(c in retentionConstraints)
    {
      if deleted {
        return None;
      }
      for i := 0 to |retentionConstraints|
        invariant c !in retentionConstraints[..i]
      {
        if retentionConstraints[i] == c {
          return Some(true);
        }
      }
      return Some(false);
    }

    // -------------------------------------------------------------- metadata

    method AddKnownHolder(peers: seq<EndpointID>) returns (err: Retention.Error)
      requires Listed() && store.Valid()
      modifies this`metadata, store`disk
      ensures store.Valid() && store.View() == AddKnownHolders(old(store.View()), number, peers)
      ensures err == if deleted then Retention.BundleDeleted else Retention.NoError
    {
      hide UpdateRow, Views, Numbers, Index;
      if deleted {
        err := Retention.BundleDeleted;
      } else {
        metadata := metadata.(holders := metadata.holders + peers);
        store.disk := UpdateRow(store.disk, metadata);
        err := Retention.NoError;
        MetadataSet();
      }
    }

    method SetMiscData(name: seq<byte>, value: uint64)
      requires Listed() && store.Valid()
      modifies this`metadata, store`disk
      ensures store.Valid() && store.View() == Step(store.cfg, old(store.View()), SetMisc(number, name, value))
      ensures metadata == old(metadata).(misc := old(metadata).misc[name := value])
    {
      hide UpdateRow, Views, Numbers, Index;
      metadata := metadata.(misc := metadata.misc[name := value]);
      store.disk := UpdateRow(store.disk, metadata);
      MetadataSet();
    }
  }

  ghost function Views(ds: seq<BundleDescriptor>): (r: seq<Descriptor>)
    reads ds
    ensures |r| == |ds| && forall i :: 0 <= i < |ds| ==> r[i] == ds[i].View()
  {
    seq(|ds|, i requires 0 <= i < |ds| reads ds => ds[i].View())
  }

  ghost function Numbers(ds: seq<BundleDescriptor>): (r: seq<nat>)
    ensures |r| == |ds| && forall i :: 0 <= i < |ds| ==> r[i] == ds[i].number
  {
    seq(|ds|, i requires 0 <= i < |ds| => ds[i].number)
  }

  lemma NumbersWithout(ds: seq<BundleDescriptor>, k: nat)
    requires k < |ds|
    ensures Numbers(ds[..k] + ds[k + 1..]) == Numbers(ds)[..k] + Numbers(ds)[k + 1..]
  {
  }

  ghost function Index(bundles: map<BundleID, BundleDescriptor>): (r: map<BundleID, nat>)
    ensures r.Keys == bundles.Keys && forall id :: id in r ==> r[id] == bundles[id].number
  {
    map id | id in bundles :: bundles[id].number
  }

  lemma IndexUpdate(bundles: map<BundleID, BundleDescriptor>, id: BundleID, d: BundleDescriptor)
    ensures Index(bundles[id := d]) == Index(bundles)[id := d.number]
    ensures Index(bundles - {id}) == Index(bundles) - {id}
  {
  }

  class BundleStore {
    const cfg: Config
    var bundles: map<BundleID, BundleDescriptor>
    var disk: Disk
    /** Descriptors whose deleteBundle was started and has not run yet. */
    var pending: seq<BundleDescriptor>
    /** All descriptors ever made. */
    ghost var descriptors: seq<BundleDescriptor>

    constructor (cfg: Config)
      ensures Valid() && View() == EMPTY && this.cfg == cfg
    {
      this.cfg := cfg;
      bundles := map[];
      disk := Disk(map[], map[]);
      pending := [];
      descriptors := [];
    }

    ghost predicate Valid()
      reads this
    {
      && (forall i :: 0 <= i < |descriptors| ==> descriptors[i].number == i && descriptors[i].store == this)
      && (forall id :: id in bundles ==> bundles[id].store == this && bundles[id].Listed())
      && (forall k :: 0 <= k < |pending| ==> pending[k].store == this && pending[k].Listed())
    }

    ghost function View(): StoreMachine.Store
      reads this, descriptors
    {
      StoreMachine.Store(Views(descriptors), Index(bundles), disk, Numbers(pending))
    }

    /** If nothing but one descriptor changed, the view changed at its position only. */
    twostate lemma OneChanged(d: BundleDescriptor)
      requires old(Valid()) && d.store == this && old(d.Listed()) && descriptors == old(descriptors)
      requires forall x :: x in descriptors && x != d ==> old(x.View()) == x.View()
      ensures View().descriptors == old(View().descriptors)[d.number := d.View()]
    {
    }

    twostate lemma OneAdded(new d: BundleDescriptor)
      requires descriptors == old(descriptors) + [d]
      requires forall x :: x in old(descriptors) ==> old(x.View()) == x.View()
      ensures View().descriptors == old(View().descriptors) + [d.View()]
    {
      hide BundleDescriptor.View;
      ghost var before := old(descriptors);
      assert forall i :: 0 <= i < |before| ==> descriptors[i] == before[i] && before[i] in before;
    }

    twostate lemma StillValid()
      requires old(Valid()) && descriptors == old(descriptors)
      requires forall id :: id in bundles ==> id in old(bundles) && bundles[id] == old(bundles)[id]
      requires forall d :: d in pending ==> d in old(pending)
      ensures Valid()
    {
      forall k | 0 <= k < |pending| ensures pending[k].store == this && pending[k].Listed() {
        assert pending[k] in old(pending);
      }
    }

    twostate lemma ValidWithNew(new d: BundleDescriptor, id: BundleID)
      requires old(Valid()) && descriptors == old(descriptors) + [d] && d.number == |old(descriptors)| && d.store == this
      requires bundles == old(bundles)[id := d] && pending == old(pending)
      ensures Valid()
    {
    }

    lemma InMap(id: BundleID)
      requires Valid() && id in bundles
      ensures bundles[id].store == this && bundles[id].Listed()
    {
    }

    lemma PendingView(k: nat)
      requires Valid() && k < |pending|
      ensures pending[k].number < |Views(descriptors)|
      ensures Views(descriptors)[pending[k].number].metadata == pending[k].metadata
    {
    }

    /** Add a bundle, or note who else has it. */
    method InsertBundle(b: Bundle, writing: Writing) returns (d: Option<BundleDescriptor>)
      requires Valid()
      modifies this, if ID(b) in bundles then {bundles[ID(b)]} else {}
      ensures Valid() && View() == Step(cfg, old(View()), Insert(b, writing))
      ensures d.Some? ==> ID(b) in bundles && bundles[ID(b)] == d.value
      ensures ID(b) !in old(bundles) ==> (d.Some? <==> CanWrite(cfg, old(disk), b, writing))
      ensures ID(b) in old(bundles) ==> (d.None? <==> PreviousNodes(b.extensions) != [] && old(bundles[ID(b)].deleted))
    {
      hide StoreMachine.WriteNew, StoreMachine.CanWrite, StoreMachine.NewMetadata, BundleIds.ID, StoreMachine.PreviousNodes, Print;
      if ID(b) !in bundles {
        d := InsertNewBundleUnsafe(b, writing);
      } else {
        var known := bundles[ID(b)];
        if PreviousNodes(b.extensions) != [] {
          var err := known.AddKnownHolder(PreviousNodes(b.extensions));
          if err != Retention.NoError {
            return None;
          }
        }
        return Some(known);
      }
    }

    method InsertNewBundleUnsafe(b: Bundle, writing: Writing) returns (d: Option<BundleDescriptor>)
      requires Valid() && ID(b) !in bundles
      modifies this
      ensures Valid() && View() == Step(cfg, old(View()), Insert(b, writing))
      ensures d.Some? ==> ID(b) in bundles && bundles[ID(b)] == d.value
      ensures d.Some? <==> CanWrite(cfg, old(disk), b, writing)
    {
      hide Valid, Views, Numbers, Index;
      hide StoreMachine.WriteNew, StoreMachine.CanWrite, StoreMachine.NewMetadata, BundleIds.ID, StoreMachine.PreviousNodes, Print;
      var (written, ok) := WriteNew(cfg, disk, b, writing);
      WrittenExactly(cfg, disk, b, writing);
      disk := written;
      if !ok {
        StillValid();
        return None;
      }
      var descriptor := new BundleDescriptor(this, NewMetadata(cfg, b), |descriptors|, b);
      IndexUpdate(bundles, ID(b), descriptor);
      bundles := bundles[ID(b) := descriptor];
      descriptors := descriptors + [descriptor];
      OneAdded(descriptor);
      ValidWithNew(descriptor, ID(b));
      return Some(descriptor);
    }

    /** The background deletion that was started `k`-th. */
    method DeleteBundle(k: nat, rowLeft: bool, fileLeft: bool)
      requires Valid() && k < |pending|
      modifies this
      ensures Valid() && View() == Step(cfg, old(View()), FinishDelete(k, rowLeft, fileLeft))
    {
      hide DeleteFromDisk, Views, Numbers, Index, Valid;
      var m := pending[k].metadata;
      ghost var views := Views(descriptors);
      PendingView(k);
      IndexUpdate(bundles, m.id, pending[k]);
      NumbersWithout(pending, k);
      bundles := bundles - {m.id};
      disk := DeleteFromDisk(disk, m, rowLeft, fileLeft);
      pending := pending[..k] + pending[k + 1..];
      StillValid();
      assert Views(descriptors) == views;
    }

    /** A descriptor of a deleted bundle is not handed out. */
    method GetBundleDescriptor(id: BundleID) returns (d: Option<BundleDescriptor>)
      ensures d == if id in bundles && !bundles[id].deleted then Some(bundles[id]) else None
    {
      if id !in bundles {
        return None;
      }
      if bundles[id].deleted {
        return None;
      }
      return Some(bundles[id]);
    }

    /** The descriptors of exactly the bundles that may be dispatched. */
    method GetDispatchable() returns (ds: set<BundleDescriptor>)
      ensures forall d :: d in ds <==> exists id :: id in bundles && bundles[id] == d && d.State().Dispatchable()
    {
      ds := {};
      var todo := bundles.Keys;
      while todo != {}
        invariant todo <= bundles.Keys
        invariant forall d :: d in ds <==> exists id :: id in bundles && id !in todo && bundles[id] == d && d.State().Dispatchable()
      {
        var id :| id in todo;
        if bundles[id].dispatch && !bundles[id].deleted {
          ds := ds + {bundles[id]};
        }
        todo := todo - {id};
      }
    }

    /** Delete(false) was tried on bundles in the store. */
    ghost predicate Collecting(actions: seq<Action>) {
      forall a :: a in actions ==> a.Operate? && a.op == Retention.Delete(false)
    }

    method Collect(d: BundleDescriptor, now: int) returns (ghost actions: seq<Action>)
      requires Valid() && d.store == this && d.Listed()
      modifies this`pending, d
      ensures Valid() && Collecting(actions) && View() == Run(cfg, old(View()), actions)
      ensures d.metadata == old(d.metadata) && d.State() == Collected(d.metadata, old(d.State()), now)
    {
      hide Retention.Apply;
      actions := [];
      if d.metadata.expires < now && !(d.retain && !d.deleted) {
        var _ := d.Delete(false);
        assert View().descriptors[d.number] == d.View();
        actions := [Operate(d.number, Retention.Delete(false))];
        assert actions[1..] == [];
      }
    }

    ghost predicate IsCollected(id: BundleID, x: Descriptor, now: int)
      reads this, bundles.Values
      requires id in bundles
    {
      bundles[id].metadata == x.metadata && bundles[id].State() == Collected(x.metadata, x.state, now)
    }

    /** A bundle is deleted afterwards if it was before, or if its lifetime was over and no constraint was left. */
    ghost predicate EndsDeleted(id: BundleID, x: Descriptor, now: int)
      reads this, bundles.Values
      requires id in bundles
    {
      bundles[id].deleted <==>
        x.state.deleted || (x.bundle.primary.timestamp.time + x.bundle.primary.lifetime < now && x.state.constraints == [])
    }

    /** Delete all bundles that have expired and are not retained. */
    method GarbageCollect(now: int) returns (ghost actions: seq<Action>)
      requires Valid() && Safe(cfg, View())
      modifies this`pending, bundles.Values
      ensures Valid() && Collecting(actions) && View() == Run(cfg, old(View()), actions)
      ensures forall id :: id in bundles ==> IsCollected(id, old(bundles[id].View()), now)
      ensures forall id :: id in bundles ==> EndsDeleted(id, old(bundles[id].View()), now)
    {
      hide Valid, View, Run, Collected, Safe, Described, EndsDeleted;
      InMapDescribed();
      actions := [];
      NoActions();
      var todo := bundles.Keys;
      while todo != {}
        invariant todo <= bundles.Keys && Valid() && Collecting(actions)
        invariant View() == Run(cfg, old(View()), actions)
        invariant forall id :: id in todo ==> bundles[id].View() == old(bundles[id].View())
        invariant forall id :: id in bundles && id !in todo ==> IsCollected(id, old(bundles[id].View()), now)
      {
        var id :| id in todo;
        InMap(id);
        ghost var more := Collect(bundles[id], now);
        RunBoth(cfg, old(View()), actions, more);
        actions := actions + more;
        todo := todo - {id};
      }
      forall id | id in bundles ensures EndsDeleted(id, old(bundles[id].View()), now) {
        CollectedEnds(id, old(bundles[id].View()), now);
      }
    }

    lemma CollectedEnds(id: BundleID, x: Descriptor, now: int)
      requires id in bundles && IsCollected(id, x, now) && Described(cfg, x)
      ensures EndsDeleted(id, x, now)
    {
      CollectedExactly(cfg, x, now);
      assert bundles[id].State().deleted == bundles[id].deleted;
    }

    lemma InMapDescribed()
      requires Valid() && Safe(cfg, View())
      ensures forall id :: id in bundles ==> bundles[id].metadata.id == id && Described(cfg, bundles[id].View())
    {
      hide Described, KeysDistinct, PendingDistinct;
      forall id | id in bundles ensures bundles[id].metadata.id == id && Described(cfg, bundles[id].View()) {
        assert View().bundles[id] == bundles[id].number;
        assert Sound(cfg, View(), bundles[id].number);
        assert View().descriptors[bundles[id].number] == bundles[id].View();
      }
    }

    lemma NoActions()
      ensures View() == Run(cfg, View(), [])
    {
    }
  }
}
