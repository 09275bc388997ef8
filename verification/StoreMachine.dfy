/** The bundle store as a state machine: every locked section of the store and of its descriptors is one step, and a
    deletion that was started in the background is a step of its own, taken at any later time. */
module StoreMachine {
  import opened Bytes
  import opened Cbor
  import opened Endpoint
  import opened Blocks
  import opened BundleCodec
  import opened BundleIds
  import opened ReadBack
  import Retention

  /** The part of a bundle that is kept in memory and in the database. */
  datatype Metadata = Metadata(
    id: BundleID,
    key: seq<byte>,
    destination: EndpointID,
    reportTo: EndpointID,
    administrative: bool,
    misc: map<seq<byte>, uint64>,
    holders: seq<EndpointID>,
    expires: int,
    fileName: seq<byte>)

  /** What does not change while the store is open. `hash` names the files. */
  datatype Config = Config(env: Env, hash: seq<byte> -> seq<byte>, nodeID: EndpointID)

  /** The previous node of a bundle with these blocks, if exactly one block names it. */
  function PreviousNodes(blocks: seq<CanonicalBlock>): (eids: seq<EndpointID>)
    ensures |eids| <= 1
  {
    var cbs := OfType(blocks, TYPE_PREVIOUS_NODE);
    if |cbs| == 1 && cbs[0].value.PreviousNode? then [cbs[0].value.endpoint] else []
  }

  function NewMetadata(cfg: Config, b: Bundle): Metadata {
    Metadata(ID(b), Print(ID(b)), b.primary.destination, b.primary.reportTo, Has(b.primary.flags, ADMINISTRATIVE_RECORD),
             map[], [cfg.nodeID] + PreviousNodes(b.extensions), b.primary.timestamp.time + b.primary.lifetime, cfg.hash(Print(ID(b))))
  }

  // ---------------------------------------------------------------- the disk

  /** The metadata database and the directory of serialised bundles. */
  datatype Disk = Disk(rows: map<seq<byte>, Metadata>, files: map<seq<byte>, seq<byte>>)

  /** How writing goes: fine, the row cannot be inserted, the file cannot be created, or it cannot be written to the end. */
  datatype Writing = Fine | NotInserted | NotCreated(rowLeft: bool, fileLeft: bool) | NotWritten(part: seq<byte>)

  /** Delete a row and a file; either may fail. */
  function DeleteFromDisk(disk: Disk, m: Metadata, rowLeft: bool, fileLeft: bool): Disk {
    Disk(if rowLeft then disk.rows else disk.rows - {m.key}, if fileLeft then disk.files else disk.files - {m.fileName})
  }

  /** Write a new bundle. An existing row is an error. */
  function WriteNew(cfg: Config, disk: Disk, b: Bundle, writing: Writing): (Disk, bool) {
    var m := NewMetadata(cfg, b);
    if m.key in disk.rows || writing.NotInserted? then (disk, false)
    else
      var d := disk.(rows := disk.rows[m.key := m]);
      match writing
      case NotCreated(rowLeft, fileLeft) => (DeleteFromDisk(d, m, rowLeft, fileLeft), false)
      case NotWritten(part) => (d.(files := d.files[m.fileName := part]), false)
      case Fine =>
        var s := EncodeBundle(cfg.env, b);
        if s.Some? then (d.(files := d.files[m.fileName := s.value]), true) else (d.(files := d.files[m.fileName := []]), false)
  }

  /** A new bundle is written if its key is free, the file can be written, and the bundle can be encoded. */
  predicate CanWrite(cfg: Config, disk: Disk, b: Bundle, writing: Writing) {
    NewMetadata(cfg, b).key !in disk.rows && writing.Fine? && EncodeBundle(cfg.env, b).Some?
  }

  lemma WrittenExactly(cfg: Config, disk: Disk, b: Bundle, writing: Writing)
    ensures WriteNew(cfg, disk, b, writing).1 <==> CanWrite(cfg, disk, b, writing)
  {
  }

  /** Write the metadata again; an unknown key is an error that is logged. */
  function UpdateRow(disk: Disk, m: Metadata): Disk {
    if m.key in disk.rows then disk.(rows := disk.rows[m.key := m]) else disk
  }

  // ---------------------------------------------------------------- the store

  /** `bundle` is what was inserted; the program only has it on disk. */
  datatype Descriptor = Descriptor(metadata: Metadata, state: Retention.State, bundle: Bundle)

  /** All descriptors ever made, the map that finds them, the disk, and the deletions not yet carried out. Descriptors are
      pointers to the program: they outlive their entry in the map. */
  datatype Store = Store(descriptors: seq<Descriptor>, bundles: map<BundleID, nat>, disk: Disk, pending: seq<nat>)

  const EMPTY := Store([], map[], Disk(map[], map[]), [])

  datatype Action =
    | Insert(b: Bundle, writing: Writing)
    | Operate(d: nat, op: Retention.Operation)
    | AddHolders(d: nat, eids: seq<EndpointID>)
    | SetMisc(d: nat, name: seq<byte>, value: uint64)
    | FinishDelete(k: nat, rowLeft: bool, fileLeft: bool)

  function SetMetadata(s: Store, d: nat, m: Metadata): Store
    requires d < |s.descriptors|
  {
    s.(descriptors := s.descriptors[d := s.descriptors[d].(metadata := m)], disk := UpdateRow(s.disk, m))
  }

  function AddKnownHolders(s: Store, d: nat, eids: seq<EndpointID>): Store
    requires d < |s.descriptors|
  {
    var x := s.descriptors[d];
    if x.state.deleted then s else SetMetadata(s, d, x.metadata.(holders := x.metadata.holders + eids))
  }

  function InsertBundle(cfg: Config, s: Store, b: Bundle, writing: Writing): Store {
    var id := ID(b);
    if id in s.bundles then
      if PreviousNodes(b.extensions) == [] || s.bundles[id] >= |s.descriptors| then s
      else AddKnownHolders(s, s.bundles[id], PreviousNodes(b.extensions))
    else
      var (disk, ok) := WriteNew(cfg, s.disk, b, writing);
      if !ok then s.(disk := disk)
      else
        Store(s.descriptors + [Descriptor(NewMetadata(cfg, b), Retention.FRESH, b)],
              s.bundles[id := |s.descriptors|], disk, s.pending)
  }

  /** A constraint operation or Delete; garbage collection is Delete(false) on any number of descriptors. */
  function OperateOn(s: Store, d: nat, op: Retention.Operation): Store
    requires d < |s.descriptors|
  {
    var x := s.descriptors[d];
    s.(descriptors := s.descriptors[d := x.(state := Retention.Apply(x.state, op).0)],
       pending := s.pending + if Retention.Spawns(x.state, op) then [d] else [])
  }

  /** deleteBundle, as started by the deletion of descriptor `pending[k]`. */
  function DeleteBundle(s: Store, k: nat, rowLeft: bool, fileLeft: bool): Store
    requires k < |s.pending| && s.pending[k] < |s.descriptors|
  {
    var m := s.descriptors[s.pending[k]].metadata;
    s.(bundles := s.bundles - {m.id}, disk := DeleteFromDisk(s.disk, m, rowLeft, fileLeft),
       pending := s.pending[..k] + s.pending[k + 1..])
  }

  /** One step; an action that is not possible changes nothing. */
  function Step(cfg: Config, s: Store, a: Action): Store {
    match a
    case Insert(b, writing) => InsertBundle(cfg, s, b, writing)
    case Operate(d, op) => if d < |s.descriptors| then OperateOn(s, d, op) else s
    case AddHolders(d, eids) => if d < |s.descriptors| then AddKnownHolders(s, d, eids) else s
    case SetMisc(d, name, value) =>
      if d < |s.descriptors| then
        SetMetadata(s, d, s.descriptors[d].metadata.(misc := s.descriptors[d].metadata.misc[name := value]))
      else s
    case FinishDelete(k, rowLeft, fileLeft) =>
      if k < |s.pending| && s.pending[k] < |s.descriptors| then DeleteBundle(s, k, rowLeft, fileLeft) else s
  }

  function Run(cfg: Config, s: Store, actions: seq<Action>): Store
    decreases |actions|
  {
    if actions == [] then s else Run(cfg, Step(cfg, s, actions[0]), actions[1..])
  }

  lemma {:induction false} RunBoth(cfg: Config, s: Store, first: seq<Action>, second: seq<Action>)
    ensures Run(cfg, s, first + second) == Run(cfg, Run(cfg, s, first), second)
    decreases |first|
  {
    hide Step;
    if first == [] {
      assert first + second == second;
    } else {
      assert (first + second)[1..] == first[1..] + second;
      RunBoth(cfg, Step(cfg, s, first[0]), first[1..], second);
    }
  }

  // ---------------------------------------------------------------- what every run keeps

  ghost predicate Injective(hash: seq<byte> -> seq<byte>) {
    forall a, b :: hash(a) == hash(b) ==> a == b
  }

  /** A descriptor's metadata belongs to its bundle: it expires when the bundle's lifetime is over, and this node and the one
      it came from are known to hold it. Its retention state is consistent. */
  ghost predicate Described(cfg: Config, x: Descriptor) {
    && x.metadata.id == ID(x.bundle)
    && x.metadata.key == Print(x.metadata.id)
    && x.metadata.fileName == cfg.hash(x.metadata.key)
    && x.metadata.expires == x.bundle.primary.timestamp.time + x.bundle.primary.lifetime
    && x.metadata.destination == x.bundle.primary.destination && x.metadata.reportTo == x.bundle.primary.reportTo
    && (x.metadata.administrative <==> x.bundle.primary.flags / 2 % 2 == 1)
    && [cfg.nodeID] + PreviousNodes(x.bundle.extensions) <= x.metadata.holders
    && EncodeBundle(cfg.env, x.bundle).Some?
    && Retention.Consistent(x.state)
  }

  predicate Found(s: Store, d: nat)
    requires d < |s.descriptors|
  {
    var id := s.descriptors[d].metadata.id;
    id in s.bundles && s.bundles[id] == d
  }

  /** The row and the file of a bundle are there. */
  ghost predicate Stored(cfg: Config, disk: Disk, x: Descriptor) {
    && x.metadata.key in disk.rows
    && x.metadata.fileName in disk.files
    && EncodeBundle(cfg.env, x.bundle) == Some(disk.files[x.metadata.fileName])
  }

  /** A descriptor that the map leads to has its row and file; one that is not deleted is in the map; and deletions are
      pending for exactly the deleted descriptors that are still in the map. */
  ghost predicate Sound(cfg: Config, s: Store, d: nat)
    requires d < |s.descriptors|
  {
    var x := s.descriptors[d];
    && Described(cfg, x)
    && (Found(s, d) ==> Stored(cfg, s.disk, x))
    && (!x.state.deleted ==> Found(s, d))
    && (d in s.pending <==> x.state.deleted && Found(s, d))
  }

  ghost predicate AllSound(cfg: Config, s: Store) {
    forall d :: 0 <= d < |s.descriptors| ==> Sound(cfg, s, d)
  }

  /** The map leads from an ID to the descriptor with that ID. */
  ghost predicate MapSound(s: Store) {
    forall id :: id in s.bundles ==> s.bundles[id] < |s.descriptors| && s.descriptors[s.bundles[id]].metadata.id == id
  }

  predicate SameKey(s: Store, d: nat, e: nat)
    requires d < |s.descriptors| && e < |s.descriptors|
  {
    Found(s, d) && Found(s, e) && s.descriptors[d].metadata.key == s.descriptors[e].metadata.key
  }

  /** No two bundles in the map share a database key. */
  ghost predicate KeysDistinct(s: Store) {
    forall d, e :: 0 <= d < |s.descriptors| && 0 <= e < |s.descriptors| && SameKey(s, d, e) ==> d == e
  }

  /** No deletion is pending twice. */
  ghost predicate PendingDistinct(s: Store) {
    && (forall k :: 0 <= k < |s.pending| ==> s.pending[k] < |s.descriptors|)
    && (forall j, k :: 0 <= j < k < |s.pending| ==> s.pending[j] != s.pending[k])
  }

  ghost predicate Safe(cfg: Config, s: Store) {
    AllSound(cfg, s) && MapSound(s) && KeysDistinct(s) && PendingDistinct(s)
  }

  lemma EmptySafe(cfg: Config)
    ensures Safe(cfg, EMPTY)
  {
  }

  // ---------------------------------------------------------------- insertion

  /** Whatever happens when a bundle is written, the files of the bundles in the map stay as they are. */
  lemma WritingKeepsOthers(cfg: Config, s: Store, b: Bundle, writing: Writing, d: nat)
    requires Injective(cfg.hash) && d < |s.descriptors| && Sound(cfg, s, d) && Found(s, d)
    ensures Stored(cfg, WriteNew(cfg, s.disk, b, writing).0, s.descriptors[d])
    ensures WriteNew(cfg, s.disk, b, writing).1 ==> s.descriptors[d].metadata.key != NewMetadata(cfg, b).key
  {
    hide EncodeBundle, Print, PreviousNodes, Retention.Consistent;
    var m := NewMetadata(cfg, b);
    assert m.fileName == cfg.hash(m.key);
  }

  /** A new ID whose key is taken is refused; so is one the disk does not take. */
  lemma RefusedSafe(cfg: Config, s: Store, b: Bundle, writing: Writing)
    requires Injective(cfg.hash) && Safe(cfg, s) && ID(b) !in s.bundles && !WriteNew(cfg, s.disk, b, writing).1
    ensures Safe(cfg, s.(disk := WriteNew(cfg, s.disk, b, writing).0))
  {
    hide WriteNew, Stored, Described, Injective;
    var t := s.(disk := WriteNew(cfg, s.disk, b, writing).0);
    forall d | 0 <= d < |t.descriptors| ensures Sound(cfg, t, d) {
      assert Sound(cfg, s, d);
      if Found(s, d) {
        WritingKeepsOthers(cfg, s, b, writing, d);
      }
    }
    assert forall d, e :: 0 <= d < |t.descriptors| && 0 <= e < |t.descriptors| ==> SameKey(t, d, e) == SameKey(s, d, e);
  }

  lemma InsertedSound(cfg: Config, s: Store, b: Bundle, d: nat)
    requires Injective(cfg.hash) && d < |s.descriptors| && Sound(cfg, s, d)
    requires ID(b) !in s.bundles && WriteNew(cfg, s.disk, b, Fine).1
    ensures var t := InsertBundle(cfg, s, b, Fine);
            && Sound(cfg, t, d) && (Found(t, d) <==> Found(s, d))
            && (Found(t, d) ==> s.descriptors[d].metadata.key != NewMetadata(cfg, b).key)
  {
    hide WriteNew, Stored, Described, Injective, ID, NewMetadata, PreviousNodes;
    if Found(s, d) {
      WritingKeepsOthers(cfg, s, b, Fine, d);
    }
  }

  lemma WrittenIsStored(cfg: Config, disk: Disk, b: Bundle)
    requires WriteNew(cfg, disk, b, Fine).1
    ensures Stored(cfg, WriteNew(cfg, disk, b, Fine).0, Descriptor(NewMetadata(cfg, b), Retention.FRESH, b))
    ensures Described(cfg, Descriptor(NewMetadata(cfg, b), Retention.FRESH, b))
  {
    hide EncodeBundle, Print, PreviousNodes, ID;
    assert Retention.FORWARD_PENDING !in Retention.FRESH.constraints;
  }

  lemma NewSound(cfg: Config, s: Store, b: Bundle)
    requires ID(b) !in s.bundles && WriteNew(cfg, s.disk, b, Fine).1
    requires forall k :: 0 <= k < |s.pending| ==> s.pending[k] < |s.descriptors|
    ensures var t := InsertBundle(cfg, s, b, Fine); Sound(cfg, t, |s.descriptors|) && Found(t, |s.descriptors|)
  {
    hide WriteNew, Stored, Described, ID, PreviousNodes, Print;
    WrittenIsStored(cfg, s.disk, b);
  }

  lemma InsertedSafe(cfg: Config, s: Store, b: Bundle)
    requires Injective(cfg.hash) && Safe(cfg, s) && ID(b) !in s.bundles && WriteNew(cfg, s.disk, b, Fine).1
    ensures Safe(cfg, InsertBundle(cfg, s, b, Fine))
  {
    hide WriteNew, Sound, Injective, ID, PreviousNodes, Found;
    var t := InsertBundle(cfg, s, b, Fine);
    var n := |s.descriptors|;
    NewSound(cfg, s, b);
    assert t.descriptors[n].metadata == NewMetadata(cfg, b);
    forall d | 0 <= d < n
      ensures Sound(cfg, t, d) && (Found(t, d) <==> Found(s, d)) && !SameKey(t, d, n) && !SameKey(t, n, d)
    {
      InsertedSound(cfg, s, b, d);
    }
    forall d, e | 0 <= d < n && 0 <= e < n && SameKey(t, d, e) ensures d == e {
      assert SameKey(s, d, e);
    }
  }

  // ---------------------------------------------------------------- metadata

  /** What ever changes in metadata: data are set, and holders are added. */
  predicate IsUpdate(before: Metadata, m: Metadata) {
    m == before.(misc := m.misc, holders := m.holders) && before.holders <= m.holders
  }

  lemma MetadataSound(cfg: Config, s: Store, d: nat, m: Metadata, e: nat)
    requires d < |s.descriptors| && e < |s.descriptors| && Sound(cfg, s, e)
    requires IsUpdate(s.descriptors[d].metadata, m)
    ensures var t := SetMetadata(s, d, m); Sound(cfg, t, e) && (Found(t, e) <==> Found(s, e))
  {
    hide EncodeBundle, Described;
    if d == e {
      StillDescribed(cfg, s.descriptors[d], m);
    }
  }

  lemma StillDescribed(cfg: Config, x: Descriptor, m: Metadata)
    requires Described(cfg, x) && IsUpdate(x.metadata, m)
    ensures Described(cfg, x.(metadata := m))
  {
    hide EncodeBundle, Print, ID, PreviousNodes, Retention.Consistent;
  }

  lemma MetadataSafe(cfg: Config, s: Store, d: nat, m: Metadata)
    requires Safe(cfg, s) && d < |s.descriptors|
    requires IsUpdate(s.descriptors[d].metadata, m)
    ensures Safe(cfg, SetMetadata(s, d, m))
  {
    hide Sound, Found, UpdateRow;
    var t := SetMetadata(s, d, m);
    forall e | 0 <= e < |s.descriptors| ensures Sound(cfg, t, e) && (Found(t, e) <==> Found(s, e)) {
      MetadataSound(cfg, s, d, m, e);
    }
    forall a, e | 0 <= a < |s.descriptors| && 0 <= e < |s.descriptors| && SameKey(t, a, e) ensures a == e {
      assert SameKey(s, a, e);
    }
  }

  // ---------------------------------------------------------------- retention and deletion

  lemma OperateSound(cfg: Config, s: Store, d: nat, op: Retention.Operation, e: nat)
    requires d < |s.descriptors| && e < |s.descriptors| && Sound(cfg, s, e)
    ensures var t := OperateOn(s, d, op); Sound(cfg, t, e) && (Found(t, e) <==> Found(s, e))
  {
    hide Stored, EncodeBundle, Print, ID, Retention.Consistent, Retention.Apply;
    var t := OperateOn(s, d, op);
    assert e in t.pending <==> e in s.pending || (e == d && Retention.Spawns(s.descriptors[d].state, op));
    StoredState(cfg, s.disk, s.descriptors[e], t.descriptors[e]);
    if d == e {
      StaysDeleted(s.descriptors[d].state, op);
      Retention.ApplyConsistent(s.descriptors[d].state, op);
    }
  }

  lemma StoredState(cfg: Config, disk: Disk, x: Descriptor, y: Descriptor)
    requires x.metadata == y.metadata && x.bundle == y.bundle
    ensures Stored(cfg, disk, x) == Stored(cfg, disk, y)
  {
  }

  lemma StaysDeleted(x: Retention.State, op: Retention.Operation)
    requires Retention.Consistent(x)
    ensures x.deleted ==> Retention.Apply(x, op).0 == x
  {
  }

  lemma OperateSafe(cfg: Config, s: Store, d: nat, op: Retention.Operation)
    requires Safe(cfg, s) && d < |s.descriptors|
    ensures Safe(cfg, OperateOn(s, d, op))
  {
    hide Sound, Found, Retention.Apply;
    var t := OperateOn(s, d, op);
    forall e | 0 <= e < |s.descriptors| ensures Sound(cfg, t, e) && (Found(t, e) <==> Found(s, e)) {
      OperateSound(cfg, s, d, op, e);
    }
    forall a, e | 0 <= a < |s.descriptors| && 0 <= e < |s.descriptors| && SameKey(t, a, e) ensures a == e {
      assert SameKey(s, a, e);
    }
    assert Retention.Spawns(s.descriptors[d].state, op) ==> d !in s.pending by { assert Sound(cfg, s, d); NotYetPending(cfg, s, d); }
  }

  lemma NotYetPending(cfg: Config, s: Store, d: nat)
    requires d < |s.descriptors| && Sound(cfg, s, d)
    ensures !s.descriptors[d].state.deleted ==> d !in s.pending
  {
  }

  lemma DeletingKeepsOthers(cfg: Config, disk: Disk, gone: Descriptor, x: Descriptor, rowLeft: bool, fileLeft: bool)
    requires Injective(cfg.hash) && Described(cfg, gone) && Described(cfg, x) && gone.metadata.key != x.metadata.key
    requires Stored(cfg, disk, x)
    ensures Stored(cfg, DeleteFromDisk(disk, gone.metadata, rowLeft, fileLeft), x)
  {
    hide EncodeBundle, Print, ID, Retention.Consistent;
  }

  lemma DeleteBundleSound(cfg: Config, s: Store, k: nat, rowLeft: bool, fileLeft: bool, e: nat)
    requires Injective(cfg.hash) && PendingDistinct(s) && k < |s.pending| && e < |s.descriptors|
    requires Sound(cfg, s, s.pending[k]) && Sound(cfg, s, e) && (SameKey(s, s.pending[k], e) ==> s.pending[k] == e)
    ensures var t := DeleteBundle(s, k, rowLeft, fileLeft);
            Sound(cfg, t, e) && (Found(t, e) <==> Found(s, e) && e != s.pending[k])
  {
    hide Stored, Injective, EncodeBundle, DeleteFromDisk, Print, ID, Described;
    var gone := s.pending[k];
    var t := DeleteBundle(s, k, rowLeft, fileLeft);
    assert Found(s, gone);
    RemovedFrom(s.pending, k, e);
    if Found(s, e) && e != gone {
      DeletingKeepsOthers(cfg, s.disk, s.descriptors[gone], s.descriptors[e], rowLeft, fileLeft);
    }
  }

  lemma RemovedFrom(ds: seq<nat>, k: nat, e: nat)
    requires k < |ds| && forall i, j :: 0 <= i < j < |ds| ==> ds[i] != ds[j]
    ensures e in ds[..k] + ds[k + 1..] <==> e in ds && e != ds[k]
  {
    var left := ds[..k] + ds[k + 1..];
    if e in ds && e != ds[k] {
      var j :| 0 <= j < |ds| && ds[j] == e;
      assert left[if j < k then j else j - 1] == e;
    }
  }

  lemma DeleteBundleSafe(cfg: Config, s: Store, k: nat, rowLeft: bool, fileLeft: bool)
    requires Injective(cfg.hash) && Safe(cfg, s) && k < |s.pending|
    ensures Safe(cfg, DeleteBundle(s, k, rowLeft, fileLeft))
  {
    hide Sound, Found, DeleteFromDisk, Injective;
    var t := DeleteBundle(s, k, rowLeft, fileLeft);
    forall e | 0 <= e < |s.descriptors| ensures Sound(cfg, t, e) && (Found(t, e) ==> Found(s, e)) {
      DeleteBundleSound(cfg, s, k, rowLeft, fileLeft, e);
    }
    forall a, e | 0 <= a < |s.descriptors| && 0 <= e < |s.descriptors| && SameKey(t, a, e) ensures a == e {
      assert SameKey(s, a, e);
    }
  }

  // ---------------------------------------------------------------- steps and runs

  lemma StepSafe(cfg: Config, s: Store, a: Action)
    requires Injective(cfg.hash) && Safe(cfg, s)
    ensures Safe(cfg, Step(cfg, s, a))
  {
    hide Safe, Injective, WriteNew, OperateOn, DeleteBundle, SetMetadata, PreviousNodes, ID;
    match a
    case Insert(b, writing) =>
      if ID(b) in s.bundles {
        if s.bundles[ID(b)] < |s.descriptors| {
          var x := s.descriptors[s.bundles[ID(b)]].metadata;
          MetadataSafe(cfg, s, s.bundles[ID(b)], x.(holders := x.holders + PreviousNodes(b.extensions)));
        }
      } else if WriteNew(cfg, s.disk, b, writing).1 {
        assert writing == Fine by { OnlyFine(cfg, s.disk, b, writing); }
        InsertedSafe(cfg, s, b);
      } else {
        RefusedSafe(cfg, s, b, writing);
      }
    case Operate(d, op) =>
      if d < |s.descriptors| {
        OperateSafe(cfg, s, d, op);
      }
    case AddHolders(d, eids) =>
      if d < |s.descriptors| {
        MetadataSafe(cfg, s, d, s.descriptors[d].metadata.(holders := s.descriptors[d].metadata.holders + eids));
      }
    case SetMisc(d, name, value) =>
      if d < |s.descriptors| {
        MetadataSafe(cfg, s, d, s.descriptors[d].metadata.(misc := s.descriptors[d].metadata.misc[name := value]));
      }
    case FinishDelete(k, rowLeft, fileLeft) =>
      if k < |s.pending| && s.pending[k] < |s.descriptors| {
        DeleteBundleSafe(cfg, s, k, rowLeft, fileLeft);
      }
  }

  lemma OnlyFine(cfg: Config, disk: Disk, b: Bundle, writing: Writing)
    requires WriteNew(cfg, disk, b, writing).1
    ensures writing == Fine
  {
  }

  lemma {:induction false} RunSafe(cfg: Config, s: Store, actions: seq<Action>)
    requires Injective(cfg.hash) && Safe(cfg, s)
    ensures Safe(cfg, Run(cfg, s, actions))
    decreases |actions|
  {
    hide Safe, Injective, Step;
    if actions != [] {
      StepSafe(cfg, s, actions[0]);
      RunSafe(cfg, Step(cfg, s, actions[0]), actions[1..]);
    }
  }

  // ---------------------------------------------------------------- what that means

  /** After any run, a pending deletion is that of a deleted descriptor: its ID leads to that very descriptor, never to a
      bundle that came later, and no other deletion is pending for the ID. */
  lemma PendingNeverHitsLive(cfg: Config, actions: seq<Action>, k: nat)
    requires Injective(cfg.hash) && k < |Run(cfg, EMPTY, actions).pending|
    ensures var s := Run(cfg, EMPTY, actions);
            var d := s.pending[k];
            && d < |s.descriptors| && s.descriptors[d].state.deleted
            && s.descriptors[d].metadata.id in s.bundles && s.bundles[s.descriptors[d].metadata.id] == d
            && forall j :: 0 <= j < |s.pending| && j != k ==>
                 s.pending[j] < |s.descriptors| && s.descriptors[s.pending[j]].metadata.id != s.descriptors[d].metadata.id
  {
    hide Injective, Run, Step, Stored, Described;
    EmptySafe(cfg);
    RunSafe(cfg, EMPTY, actions);
    var s := Run(cfg, EMPTY, actions);
    forall j | 0 <= j < |s.pending| ensures Sound(cfg, s, s.pending[j]) && s.pending[j] in s.pending {
    }
  }

  /** After any run, a bundle that was not deleted is found under its ID, and has its row and its file. What is read from the
      file is the bundle that was inserted exactly if that one is readable and valid. */
  lemma LiveBundleIsComplete(cfg: Config, actions: seq<Action>, d: nat)
    requires Injective(cfg.hash) && d < |Run(cfg, EMPTY, actions).descriptors|
    requires !Run(cfg, EMPTY, actions).descriptors[d].state.deleted
    ensures var s := Run(cfg, EMPTY, actions);
            var x := s.descriptors[d];
            && Found(s, d) && x.metadata.id == ID(x.bundle)
            && x.metadata.key in s.disk.rows && x.metadata.fileName in s.disk.files && EncodeBundle(cfg.env, x.bundle).Some?
            && (SizedBundle(x.bundle) ==> IsRead(cfg.env, x.bundle, s.disk.files[x.metadata.fileName]))
  {
    hide Injective, Run, Step, EncodeBundle, DecodeBundle, Print, Retention.Consistent, SizedBundle, IsRead;
    EmptySafe(cfg);
    RunSafe(cfg, EMPTY, actions);
    var s := Run(cfg, EMPTY, actions);
    assert Sound(cfg, s, d);
    var x := s.descriptors[d];
    if SizedBundle(x.bundle) {
      EncodingIsRead(cfg.env, x.bundle);
    }
  }

  /** A file of these bytes is read as what a reader makes of the bundle. */
  ghost predicate IsRead(env: Env, b: Bundle, file: seq<byte>)
    requires EncodeBundle(env, b).Some?
  {
    && DecodeBundle(env, file) == Reads(BundleRead(env, b), [])
    && (DecodeBundle(env, file) == Ok(FilledBundle(env, b), []) <==> ReadableBundle(env, b) && CheckBundle(env, b))
  }

  lemma EncodingIsRead(env: Env, b: Bundle)
    requires EncodeBundle(env, b).Some? && SizedBundle(b)
    ensures IsRead(env, b, EncodeBundle(env, b).value)
  {
    hide EncodeBundle, DecodeBundle, BundleRead, SizedBundle, ReadableBundle, CheckBundle, FilledBundle;
    BundleIsRead(env, b, []);
    assert EncodeBundle(env, b).value + [] == EncodeBundle(env, b).value;
  }

  /** A bundle whose ID prints like that of another one in the store cannot be inserted; nothing changes. */
  lemma CollidingInsertIsRefused(cfg: Config, actions: seq<Action>, d: nat, b: Bundle, writing: Writing)
    requires Injective(cfg.hash) && d < |Run(cfg, EMPTY, actions).descriptors|
    requires var s := Run(cfg, EMPTY, actions); Found(s, d) && ID(b) !in s.bundles && Print(ID(b)) == s.descriptors[d].metadata.key
    ensures Step(cfg, Run(cfg, EMPTY, actions), Insert(b, writing)) == Run(cfg, EMPTY, actions)
  {
    hide Injective, Run, EncodeBundle, Print, ID, PreviousNodes;
    EmptySafe(cfg);
    RunSafe(cfg, EMPTY, actions);
    assert Sound(cfg, Run(cfg, EMPTY, actions), d);
  }

  /** The bundles that GetDispatchable offers are never ones that are being forwarded, or deleted. */
  lemma DispatchableAreIdle(cfg: Config, actions: seq<Action>, d: nat)
    requires Injective(cfg.hash) && d < |Run(cfg, EMPTY, actions).descriptors|
    ensures var s := Run(cfg, EMPTY, actions);
            var x := s.descriptors[d].state;
            x.Dispatchable() <==> Retention.FORWARD_PENDING !in x.constraints && Found(s, d) && d !in s.pending
  {
    hide Injective, Run, EncodeBundle, Print, ID, Stored;
    EmptySafe(cfg);
    RunSafe(cfg, EMPTY, actions);
    assert Sound(cfg, Run(cfg, EMPTY, actions), d);
  }

  // ---------------------------------------------------------------- garbage collection

  /** The state of a descriptor after garbage collection at some time. */
  function Collected(m: Metadata, s: Retention.State, now: int): Retention.State {
    if m.expires < now && !s.Retained() then Retention.Apply(s, Retention.Delete(false)).0 else s
  }

  /** Of a descriptor as every run has it: it is deleted afterwards exactly if it was before, or if the bundle's creation time
      and lifetime lie behind and no constraint is left. Its constraints stay. */
  lemma CollectedExactly(cfg: Config, x: Descriptor, now: int)
    requires Described(cfg, x)
    ensures var after := Collected(x.metadata, x.state, now);
            && after.constraints == x.state.constraints
            && (after.deleted <==>
                x.state.deleted || (x.bundle.primary.timestamp.time + x.bundle.primary.lifetime < now && x.state.constraints == []))
  {
    hide EncodeBundle, Print, ID, PreviousNodes;
  }

  // ---------------------------------------------------------------- is the database up to date?

  /** The database has what memory has. */
  ghost predicate Mirrored(s: Store) {
    forall d :: 0 <= d < |s.descriptors| && Found(s, d) && s.descriptors[d].metadata.key in s.disk.rows ==>
      s.disk.rows[s.descriptors[d].metadata.key] == s.descriptors[d].metadata
  }

  /** Does the action write metadata through a descriptor that has left the store? */
  predicate IsStale(s: Store, a: Action) {
    a.SetMisc? && a.d < |s.descriptors| && !Found(s, a.d)
  }

  lemma MetadataMirrored(cfg: Config, s: Store, d: nat, m: Metadata)
    requires Safe(cfg, s) && Mirrored(s) && d < |s.descriptors| && Found(s, d)
    requires IsUpdate(s.descriptors[d].metadata, m)
    ensures Mirrored(SetMetadata(s, d, m))
  {
    hide AllSound, MapSound;
    var t := SetMetadata(s, d, m);
    forall e | 0 <= e < |t.descriptors| && Found(t, e) && t.descriptors[e].metadata.key in t.disk.rows
      ensures t.disk.rows[t.descriptors[e].metadata.key] == t.descriptors[e].metadata
    {
      assert Found(s, e);
      assert SameKey(s, d, e) ==> d == e;
    }
  }

  lemma InsertMirrored(cfg: Config, s: Store, b: Bundle, writing: Writing)
    requires Injective(cfg.hash) && Safe(cfg, s) && Mirrored(s) && ID(b) !in s.bundles
    ensures Mirrored(InsertBundle(cfg, s, b, writing))
  {
    hide Sound, WriteNew, Found, ID, PreviousNodes, NewMetadata, Injective, KeysDistinct, MapSound, PendingDistinct;
    var t := InsertBundle(cfg, s, b, writing);
    var n := |s.descriptors|;
    forall e | 0 <= e < |t.descriptors| && Found(t, e) && t.descriptors[e].metadata.key in t.disk.rows
      ensures t.disk.rows[t.descriptors[e].metadata.key] == t.descriptors[e].metadata
    {
      if e < n {
        assert Sound(cfg, s, e);
        InsertKeepsRow(cfg, s, b, writing, e);
      } else {
        NewRow(cfg, s.disk, b, writing);
      }
    }
  }

  lemma InsertKeepsRow(cfg: Config, s: Store, b: Bundle, writing: Writing, e: nat)
    requires e < |s.descriptors| && Sound(cfg, s, e) && ID(b) !in s.bundles && Found(InsertBundle(cfg, s, b, writing), e)
    ensures var key := s.descriptors[e].metadata.key;
            && Found(s, e) && key in s.disk.rows
            && key in InsertBundle(cfg, s, b, writing).disk.rows
            && InsertBundle(cfg, s, b, writing).disk.rows[key] == s.disk.rows[key]
  {
    hide EncodeBundle, Print, ID, PreviousNodes, Retention.Consistent;
  }

  lemma NewRow(cfg: Config, disk: Disk, b: Bundle, writing: Writing)
    requires WriteNew(cfg, disk, b, writing).1
    ensures var m := NewMetadata(cfg, b);
            m.key in WriteNew(cfg, disk, b, writing).0.rows && WriteNew(cfg, disk, b, writing).0.rows[m.key] == m
  {
    hide EncodeBundle, NewMetadata;
  }

  lemma DeleteMirrored(cfg: Config, s: Store, k: nat, rowLeft: bool, fileLeft: bool)
    requires Safe(cfg, s) && Mirrored(s) && k < |s.pending|
    ensures Mirrored(DeleteBundle(s, k, rowLeft, fileLeft))
  {
    hide AllSound, MapSound, KeysDistinct;
    var t := DeleteBundle(s, k, rowLeft, fileLeft);
    assert forall e :: 0 <= e < |t.descriptors| && Found(t, e) ==> Found(s, e);
  }

  /** The database stays up to date as long as nobody writes data through the descriptor of a bundle that is gone. */
  lemma StepMirrored(cfg: Config, s: Store, a: Action)
    requires Injective(cfg.hash) && Safe(cfg, s) && Mirrored(s) && !IsStale(s, a)
    ensures Mirrored(Step(cfg, s, a))
  {
    hide Injective, InsertBundle, DeleteBundle, SetMetadata, PreviousNodes, Retention.Apply;
    match a
    case Insert(b, writing) =>
      if ID(b) !in s.bundles {
        InsertMirrored(cfg, s, b, writing);
      } else {
        var d := s.bundles[ID(b)];
        var x := s.descriptors[d].metadata;
        MetadataMirrored(cfg, s, d, x.(holders := x.holders + PreviousNodes(b.extensions)));
        KnownInsert(cfg, s, b, writing);
      }
    case Operate(d, op) =>
      if d < |s.descriptors| {
        assert forall e :: 0 <= e < |s.descriptors| ==> (Found(OperateOn(s, d, op), e) <==> Found(s, e));
      }
    case AddHolders(d, eids) =>
      if d < |s.descriptors| && !s.descriptors[d].state.deleted {
        assert Sound(cfg, s, d);
        MetadataMirrored(cfg, s, d, s.descriptors[d].metadata.(holders := s.descriptors[d].metadata.holders + eids));
      }
    case SetMisc(d, name, value) =>
      if d < |s.descriptors| {
        MetadataMirrored(cfg, s, d, s.descriptors[d].metadata.(misc := s.descriptors[d].metadata.misc[name := value]));
      }
    case FinishDelete(k, rowLeft, fileLeft) =>
      if k < |s.pending| && s.pending[k] < |s.descriptors| {
        DeleteMirrored(cfg, s, k, rowLeft, fileLeft);
      }
  }

  lemma KnownInsert(cfg: Config, s: Store, b: Bundle, writing: Writing)
    requires ID(b) in s.bundles && s.bundles[ID(b)] < |s.descriptors|
    ensures InsertBundle(cfg, s, b, writing) in {s, AddKnownHolders(s, s.bundles[ID(b)], PreviousNodes(b.extensions))}
  {
  }

  /** What a stale write does: the database is still up to date exactly if every descriptor in the map with the same key
      happens to have the very metadata written. */
  lemma StaleWriteExactly(cfg: Config, s: Store, d: nat, name: seq<byte>, value: uint64)
    requires Safe(cfg, s) && Mirrored(s) && d < |s.descriptors| && !Found(s, d)
    ensures var x := s.descriptors[d].metadata;
            var m := x.(misc := x.misc[name := value]);
            Mirrored(Step(cfg, s, SetMisc(d, name, value))) <==>
              forall e :: 0 <= e < |s.descriptors| && Found(s, e) && s.descriptors[e].metadata.key == m.key ==>
                s.descriptors[e].metadata == m
  {
    hide MapSound, KeysDistinct, PendingDistinct, Described;
    var x := s.descriptors[d].metadata;
    var m := x.(misc := x.misc[name := value]);
    var t := Step(cfg, s, SetMisc(d, name, value));
    forall e | 0 <= e < |s.descriptors|
      ensures Found(t, e) <==> Found(s, e)
      ensures Found(s, e) ==> e != d && t.descriptors[e] == s.descriptors[e] && s.descriptors[e].metadata.key in s.disk.rows
    {
      assert Sound(cfg, s, e);
    }
  }

  /** No write through a descriptor that has left the store, in a whole run. */
  predicate NeverStale(cfg: Config, s: Store, actions: seq<Action>)
    decreases |actions|
  {
    actions == [] || (!IsStale(s, actions[0]) && NeverStale(cfg, Step(cfg, s, actions[0]), actions[1..]))
  }

  lemma {:induction false} RunMirrored(cfg: Config, s: Store, actions: seq<Action>)
    requires Injective(cfg.hash) && Safe(cfg, s) && Mirrored(s) && NeverStale(cfg, s, actions)
    ensures Mirrored(Run(cfg, s, actions))
    decreases |actions|
  {
    hide Injective, Safe, Mirrored, Step, IsStale;
    if actions != [] {
      StepMirrored(cfg, s, actions[0]);
      StepSafe(cfg, s, actions[0]);
      RunMirrored(cfg, Step(cfg, s, actions[0]), actions[1..]);
    }
  }

  /** What a caller can look up before it sets data: Deleted(). */
  predicate IsGuarded(s: Store, a: Action) {
    a.SetMisc? && a.d < |s.descriptors| ==> !s.descriptors[a.d].state.deleted
  }

  predicate Guarded(cfg: Config, s: Store, actions: seq<Action>)
    decreases |actions|
  {
    actions == [] || (IsGuarded(s, actions[0]) && Guarded(cfg, Step(cfg, s, actions[0]), actions[1..]))
  }

  lemma GuardedIsFresh(cfg: Config, s: Store, a: Action)
    requires Safe(cfg, s) && IsGuarded(s, a)
    ensures !IsStale(s, a)
  {
    hide MapSound, KeysDistinct, PendingDistinct, Described, Stored;
    if a.SetMisc? && a.d < |s.descriptors| {
      assert Sound(cfg, s, a.d);
    }
  }

  lemma {:induction false} GuardedIsNeverStale(cfg: Config, s: Store, actions: seq<Action>)
    requires Injective(cfg.hash) && Safe(cfg, s) && Guarded(cfg, s, actions)
    ensures NeverStale(cfg, s, actions)
    decreases |actions|
  {
    hide Injective, Safe, Step, IsStale, IsGuarded;
    if actions != [] {
      GuardedIsFresh(cfg, s, actions[0]);
      StepSafe(cfg, s, actions[0]);
      GuardedIsNeverStale(cfg, Step(cfg, s, actions[0]), actions[1..]);
    }
  }

  /** In every run in which data are set only on bundles that are not deleted, the database has what memory has, in the end
      and for every bundle in the store. */
  lemma GuardedRunIsMirrored(cfg: Config, actions: seq<Action>, d: nat)
    requires Injective(cfg.hash) && Guarded(cfg, EMPTY, actions) && d < |Run(cfg, EMPTY, actions).descriptors|
    requires Found(Run(cfg, EMPTY, actions), d)
    ensures var s := Run(cfg, EMPTY, actions);
            var m := s.descriptors[d].metadata;
            m.key in s.disk.rows && s.disk.rows[m.key] == m
  {
    hide Injective, Run, Step, Guarded, NeverStale, Described;
    EmptySafe(cfg);
    GuardedIsNeverStale(cfg, EMPTY, actions);
    RunMirrored(cfg, EMPTY, actions);
    RunSafe(cfg, EMPTY, actions);
    assert Sound(cfg, Run(cfg, EMPTY, actions), d);
  }

  /** The store after a bundle was inserted, deleted, and inserted again. */
  function InsertedAgain(cfg: Config, b: Bundle): Store
    requires EncodeBundle(cfg.env, b).Some?
  {
    var m := NewMetadata(cfg, b);
    Store([Descriptor(m, Retention.State([], false, true, true, false), b), Descriptor(m, Retention.FRESH, b)],
          map[m.id := 1], Disk(map[m.key := m], map[m.fileName := EncodeBundle(cfg.env, b).value]), [])
  }

  lemma InsertInto(cfg: Config, s: Store, b: Bundle)
    requires EncodeBundle(cfg.env, b).Some? && s.bundles == map[] && s.disk == Disk(map[], map[])
    ensures var m := NewMetadata(cfg, b);
            var disk := Disk(map[m.key := m], map[m.fileName := EncodeBundle(cfg.env, b).value]);
            var x := Descriptor(m, Retention.FRESH, b);
            Step(cfg, s, Insert(b, Fine)) == Store(s.descriptors + [x], map[m.id := |s.descriptors|], disk, s.pending)
  {
    hide EncodeBundle, Print, ID, PreviousNodes;
  }

  /** Without constraints a bundle is deleted at once, and is gone after the background deletion. */
  lemma DeleteOnly(cfg: Config, s: Store, x: Descriptor)
    requires x.state == Retention.FRESH && s.descriptors == [x] && s.bundles == map[x.metadata.id := 0] && s.pending == []
    requires s.disk.rows.Keys == {x.metadata.key} && s.disk.files.Keys == {x.metadata.fileName}
    ensures var reset := Step(cfg, s, Operate(0, Retention.Reset));
            var deleted := Step(cfg, reset, Operate(0, Retention.Delete(false)));
            var gone := [x.(state := Retention.State([], false, true, true, false))];
            Step(cfg, deleted, FinishDelete(0, false, false)) == Store(gone, map[], Disk(map[], map[]), [])
  {
  }

  lemma RunFive(cfg: Config, s: Store, actions: seq<Action>)
    requires |actions| == 5
    ensures Run(cfg, s, actions)
         == Step(cfg, Step(cfg, Step(cfg, Step(cfg, Step(cfg, s, actions[0]), actions[1]), actions[2]), actions[3]), actions[4])
  {
    hide Step;
    var s1 := Step(cfg, s, actions[0]);
    var s2 := Step(cfg, s1, actions[1]);
    var s3 := Step(cfg, s2, actions[2]);
    var s4 := Step(cfg, s3, actions[3]);
    var s5 := Step(cfg, s4, actions[4]);
    assert actions[1..][1..] == actions[2..] && actions[2..][1..] == actions[3..];
    assert actions[3..][1..] == actions[4..] && actions[4..][1..] == [];
    assert Run(cfg, s5, actions[4..][1..]) == s5;
    assert Run(cfg, s4, actions[4..]) == s5;
    assert Run(cfg, s3, actions[3..]) == s5;
    assert Run(cfg, s2, actions[2..]) == s5;
    assert Run(cfg, s1, actions[1..]) == s5;
  }

  function DeleteInBetween(b: Bundle): seq<Action> {
    [Insert(b, Fine), Operate(0, Retention.Reset), Operate(0, Retention.Delete(false)), FinishDelete(0, false, false), Insert(b, Fine)]
  }

  lemma InsertedAgainByRun(cfg: Config, b: Bundle)
    requires EncodeBundle(cfg.env, b).Some?
    ensures Run(cfg, EMPTY, DeleteInBetween(b)) == InsertedAgain(cfg, b)
  {
    hide NewMetadata, EncodeBundle, Step, Run;
    RunFive(cfg, EMPTY, DeleteInBetween(b));
    InsertInto(cfg, EMPTY, b);
    var x := Descriptor(NewMetadata(cfg, b), Retention.FRESH, b);
    var s := Step(cfg, EMPTY, Insert(b, Fine));
    assert s.descriptors == [x];
    DeleteOnly(cfg, s, x);
    var reset := Step(cfg, s, Operate(0, Retention.Reset));
    var deleted := Step(cfg, reset, Operate(0, Retention.Delete(false)));
    InsertInto(cfg, Step(cfg, deleted, FinishDelete(0, false, false)), b);
  }

  /** SetMiscData does not look whether its bundle was deleted: once the same bundle is inserted again, data set through
      the old descriptor replaces the new bundle's row. */
  lemma StaleDataReplacesRow(cfg: Config, b: Bundle, name: seq<byte>, value: uint64)
    requires EncodeBundle(cfg.env, b).Some?
    ensures var s := Run(cfg, EMPTY, DeleteInBetween(b));
            && Mirrored(s) && |s.descriptors| == 2 && Found(s, 1) && IsStale(s, SetMisc(0, name, value))
            && !Mirrored(Step(cfg, s, SetMisc(0, name, value)))
  {
    hide EncodeBundle, Print, ID, PreviousNodes, Run;
    InsertedAgainByRun(cfg, b);
    var s := InsertedAgain(cfg, b);
    var t := Step(cfg, s, SetMisc(0, name, value));
    assert Found(t, 1) && t.disk.rows[t.descriptors[1].metadata.key] == t.descriptors[0].metadata;
    assert name in t.descriptors[0].metadata.misc && name !in t.descriptors[1].metadata.misc;
  }

  // ---------------------------------------------------------------- rows left behind

  /** No bundle in the map has the key. */
  ghost predicate NoneWith(s: Store, key: seq<byte>) {
    forall d :: 0 <= d < |s.descriptors| && Found(s, d) ==> s.descriptors[d].metadata.key != key
  }

  /** There is a row that belongs to no bundle in the map. */
  ghost predicate LeftBehind(s: Store, key: seq<byte>) {
    key in s.disk.rows && NoneWith(s, key)
  }

  lemma NoneHasID(cfg: Config, s: Store, id: BundleID)
    requires Safe(cfg, s)
    ensures NoneWith(s, Print(id)) ==> id !in s.bundles
  {
    hide Print, Stored, EncodeBundle, Retention.Consistent;
    if id in s.bundles {
      assert Sound(cfg, s, s.bundles[id]) && Found(s, s.bundles[id]);
    }
  }

  /** An insertion that fails leaves its row behind exactly if the file was created, or the row could not be deleted. */
  lemma LeftBehindExactly(cfg: Config, s: Store, b: Bundle, writing: Writing)
    requires Injective(cfg.hash) && Safe(cfg, s) && NoneWith(s, Print(ID(b))) && Print(ID(b)) !in s.disk.rows
    ensures LeftBehind(Step(cfg, s, Insert(b, writing)), Print(ID(b))) <==>
      match writing
      case Fine => EncodeBundle(cfg.env, b).None?
      case NotInserted => false
      case NotWritten(_) => true
      case NotCreated(rowLeft, _) => rowLeft
  {
    hide Print, ID, PreviousNodes, EncodeBundle, Safe, Injective;
    NoneHasID(cfg, s, ID(b));
    var t := Step(cfg, s, Insert(b, writing));
    if WriteNew(cfg, s.disk, b, writing).1 {
      SafeMap(cfg, s);
      assert Found(t, |s.descriptors|);
    } else {
      assert forall d :: 0 <= d < |t.descriptors| ==> Found(t, d) == Found(s, d);
    }
  }

  lemma SafeMap(cfg: Config, s: Store)
    requires Safe(cfg, s)
    ensures MapSound(s)
  {
  }

  lemma NoneAfterDeletion(cfg: Config, s: Store, k: nat, rowLeft: bool, fileLeft: bool)
    requires Safe(cfg, s) && k < |s.pending| && s.pending[k] < |s.descriptors|
    ensures NoneWith(DeleteBundle(s, k, rowLeft, fileLeft), s.descriptors[s.pending[k]].metadata.key)
  {
    hide Stored, Described, DeleteFromDisk;
    var t := DeleteBundle(s, k, rowLeft, fileLeft);
    var d := s.pending[k];
    PendingIsFound(cfg, s, k);
    forall e | 0 <= e < |t.descriptors| && Found(t, e) ensures t.descriptors[e].metadata.key != s.descriptors[d].metadata.key {
      assert Found(s, e) && e != d;
      assert SameKey(s, d, e) ==> d == e;
    }
  }

  /** So does a deletion that cannot delete the row. */
  lemma DeletionLeavesExactly(cfg: Config, s: Store, k: nat, rowLeft: bool, fileLeft: bool)
    requires Safe(cfg, s) && k < |s.pending| && s.pending[k] < |s.descriptors|
    ensures LeftBehind(Step(cfg, s, FinishDelete(k, rowLeft, fileLeft)), s.descriptors[s.pending[k]].metadata.key) <==> rowLeft
  {
    hide Safe, NoneWith, Found;
    NoneAfterDeletion(cfg, s, k, rowLeft, fileLeft);
    PendingHasRow(cfg, s, k);
  }

  lemma PendingHasRow(cfg: Config, s: Store, k: nat)
    requires Safe(cfg, s) && k < |s.pending| && s.pending[k] < |s.descriptors|
    ensures s.descriptors[s.pending[k]].metadata.key in s.disk.rows
  {
    hide Described, EncodeBundle;
    assert Sound(cfg, s, s.pending[k]);
  }

  lemma RowStays(cfg: Config, s: Store, a: Action, key: seq<byte>)
    requires Injective(cfg.hash) && Safe(cfg, s) && LeftBehind(s, key)
    ensures LeftBehind(Step(cfg, s, a), key)
  {
    hide Injective, Stored, Described, EncodeBundle, Print, ID, PreviousNodes, KeysDistinct, AllSound;
    match a
    case Insert(b, writing) => InsertLeaves(cfg, s, b, writing, key);
    case Operate(d, op) =>
      if d < |s.descriptors| {
        assert forall e :: 0 <= e < |s.descriptors| ==> Found(Step(cfg, s, a), e) == Found(s, e);
      }
    case AddHolders(d, eids) =>
      if d < |s.descriptors| {
        WritingLeaves(s, d, s.descriptors[d].metadata.(holders := s.descriptors[d].metadata.holders + eids), key);
      }
    case SetMisc(d, name, value) =>
      if d < |s.descriptors| {
        WritingLeaves(s, d, s.descriptors[d].metadata.(misc := s.descriptors[d].metadata.misc[name := value]), key);
      }
    case FinishDelete(k, rowLeft, fileLeft) =>
      if k < |s.pending| && s.pending[k] < |s.descriptors| {
        assert Found(s, s.pending[k]) by { PendingIsFound(cfg, s, k); }
        assert forall e :: 0 <= e < |s.descriptors| && Found(Step(cfg, s, a), e) ==> Found(s, e);
      }
  }

  lemma PendingIsFound(cfg: Config, s: Store, k: nat)
    requires Safe(cfg, s) && k < |s.pending| && s.pending[k] < |s.descriptors|
    ensures Found(s, s.pending[k])
  {
    hide Stored, Described;
    assert Sound(cfg, s, s.pending[k]);
  }

  lemma WritingLeaves(s: Store, d: nat, m: Metadata, key: seq<byte>)
    requires LeftBehind(s, key) && d < |s.descriptors|
    requires m.id == s.descriptors[d].metadata.id && m.key == s.descriptors[d].metadata.key
    ensures LeftBehind(SetMetadata(s, d, m), key)
  {
    var t := SetMetadata(s, d, m);
    assert forall e :: 0 <= e < |t.descriptors| ==> Found(t, e) == Found(s, e);
  }

  lemma InsertLeaves(cfg: Config, s: Store, b: Bundle, writing: Writing, key: seq<byte>)
    requires Injective(cfg.hash) && Safe(cfg, s) && LeftBehind(s, key)
    ensures LeftBehind(InsertBundle(cfg, s, b, writing), key)
  {
    hide Injective, Safe, EncodeBundle, Print, ID, PreviousNodes;
    SafeMap(cfg, s);
    var id := ID(b);
    if id in s.bundles {
      var d := s.bundles[id];
      WritingLeaves(s, d, s.descriptors[d].metadata.(holders := s.descriptors[d].metadata.holders + PreviousNodes(b.extensions)), key);
    } else {
      var t := InsertBundle(cfg, s, b, writing);
      forall e | 0 <= e < |t.descriptors| && Found(t, e) ensures t.descriptors[e].metadata.key != key {
        assert e < |s.descriptors| ==> Found(s, e);
      }
    }
  }

  lemma {:induction false} RowStaysInRun(cfg: Config, s: Store, actions: seq<Action>, key: seq<byte>)
    requires Injective(cfg.hash) && Safe(cfg, s) && LeftBehind(s, key)
    ensures LeftBehind(Run(cfg, s, actions), key) && Safe(cfg, Run(cfg, s, actions))
    decreases |actions|
  {
    hide Injective, Safe, LeftBehind, Step;
    if actions != [] {
      RowStays(cfg, s, actions[0], key);
      StepSafe(cfg, s, actions[0]);
      RowStaysInRun(cfg, Step(cfg, s, actions[0]), actions[1..], key);
    }
  }

  /** No run from here has the bundle in the store. */
  ghost predicate NeverStored(cfg: Config, s: Store, id: BundleID) {
    forall actions :: id !in Run(cfg, s, actions).bundles
  }

  /** While the store is open, a bundle whose key no bundle in it has can never be stored exactly if there is a row with the
      key: one that was left behind blocks its ID for every later insertion. */
  lemma BlockedExactly(cfg: Config, s: Store, b: Bundle)
    requires Injective(cfg.hash) && Safe(cfg, s) && EncodeBundle(cfg.env, b).Some? && NoneWith(s, Print(ID(b)))
    ensures NeverStored(cfg, s, ID(b)) <==> Print(ID(b)) in s.disk.rows
  {
    hide Injective, Safe, EncodeBundle, Print, ID, PreviousNodes, Run, NoneWith;
    if Print(ID(b)) in s.disk.rows {
      forall actions ensures ID(b) !in Run(cfg, s, actions).bundles {
        RowStaysInRun(cfg, s, actions, Print(ID(b)));
        NoneHasID(cfg, Run(cfg, s, actions), ID(b));
      }
    } else {
      InsertedAtOnce(cfg, s, b);
    }
  }

  lemma InsertedAtOnce(cfg: Config, s: Store, b: Bundle)
    requires EncodeBundle(cfg.env, b).Some? && Print(ID(b)) !in s.disk.rows
    ensures ID(b) in Run(cfg, s, [Insert(b, Fine)]).bundles
  {
    hide EncodeBundle, Print, ID, PreviousNodes;
    var a := Insert(b, Fine);
    assert [a][1..] == [] && Run(cfg, Step(cfg, s, a), []) == Step(cfg, s, a);
  }

  /** In any run, when a bundle is inserted that is not in the store and whose key is free: its ID is blocked for good
      exactly if the file was created but not written, or the row could not be deleted again. `c` is a bundle with the ID
      that can be encoded. */
  lemma FailedInsertBlocksExactly(cfg: Config, actions: seq<Action>, b: Bundle, writing: Writing, c: Bundle)
    requires Injective(cfg.hash) && ID(c) == ID(b) && EncodeBundle(cfg.env, c).Some?
    requires var s := Run(cfg, EMPTY, actions); NoneWith(s, Print(ID(b))) && Print(ID(b)) !in s.disk.rows
    ensures NeverStored(cfg, Step(cfg, Run(cfg, EMPTY, actions), Insert(b, writing)), ID(b)) <==>
      match writing
      case Fine => EncodeBundle(cfg.env, b).None?
      case NotInserted => false
      case NotWritten(_) => true
      case NotCreated(rowLeft, _) => rowLeft
  {
    hide Injective, Safe, EncodeBundle, Print, ID, PreviousNodes, Run, NoneWith, Step, NeverStored, WriteNew;
    var s := Run(cfg, EMPTY, actions);
    assert Safe(cfg, s) by {
      EmptySafe(cfg);
      RunSafe(cfg, EMPTY, actions);
    }
    var t := Step(cfg, s, Insert(b, writing));
    StepSafe(cfg, s, Insert(b, writing));
    LeftBehindExactly(cfg, s, b, writing);
    InsertedOrNone(cfg, s, b, writing);
    if NoneWith(t, Print(ID(b))) {
      BlockedExactly(cfg, t, c);
    } else {
      StoredNow(cfg, t, ID(b));
    }
  }

  lemma InsertedOrNone(cfg: Config, s: Store, b: Bundle, writing: Writing)
    requires Safe(cfg, s) && NoneWith(s, Print(ID(b)))
    ensures var t := Step(cfg, s, Insert(b, writing)); ID(b) in t.bundles || NoneWith(t, Print(ID(b)))
  {
    hide Safe, EncodeBundle, Print, ID, PreviousNodes, WriteNew;
    NoneHasID(cfg, s, ID(b));
    var t := Step(cfg, s, Insert(b, writing));
    if !WriteNew(cfg, s.disk, b, writing).1 {
      assert forall d :: 0 <= d < |t.descriptors| ==> Found(t, d) == Found(s, d);
    }
  }

  lemma StoredNow(cfg: Config, s: Store, id: BundleID)
    requires id in s.bundles
    ensures !NeverStored(cfg, s, id)
  {
    assert Run(cfg, s, []) == s;
  }
}
