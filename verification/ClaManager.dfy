/** The manager of convergence layer adapters (CLAs): registration, asynchronous activation, disconnects and shutdown in
    any interleaving. Every locked section is one step. */
module ClaManager {
  import opened Bytes
  import opened Sorting

  type Address = seq<byte>

  /** An adapter is known by its address; it may receive, send, or do both. */
  datatype Cla = Cla(address: Address, receiver: bool, sender: bool)

  /** A disconnect in progress; `filtered` once the adapter was taken off the lists. */
  datatype Disconnect = Disconnect(cla: Cla, filtered: bool)

  /** The lists of the manager, and the goroutines in progress: activations and disconnects. */
  datatype State = State(receivers: seq<Cla>, senders: seq<Cla>, pendingStart: seq<Cla>, pendingRemoval: set<Address>,
                         activating: seq<Cla>, disconnecting: seq<Disconnect>)

  const INITIAL := State([], [], [], {}, [], [])

  predicate HasAddress(clas: seq<Cla>, a: Address) {
    exists i :: 0 <= i < |clas| && clas[i].address == a
  }

  /** The adapters with other addresses, in order. */
  function Without(clas: seq<Cla>, a: Address): (r: seq<Cla>)
    ensures |r| <= |clas|
  {
    if clas == [] then []
    else
      var n := |clas| - 1;
      Without(clas[..n], a) + if clas[n].address != a then [clas[n]] else []
  }

  predicate Present(s: State, c: Cla) {
    || HasAddress(s.pendingStart, c.address)
    || (c.receiver && HasAddress(s.receivers, c.address))
    || (c.sender && HasAddress(s.senders, c.address))
  }

  datatype Action =
    | Register(cla: Cla)
    | Activated(k: nat, ok: bool)
    | StartDisconnect(cla: Cla)
    | FilterDisconnect(k: nat)
    | EndDisconnect(k: nat)
    | Shutdown

  function RegisterStep(s: State, c: Cla): State {
    if Present(s, c) then s else s.(pendingStart := s.pendingStart + [c], activating := s.activating + [c])
  }

  /** The end of an activation, successful or not. */
  function ActivatedStep(s: State, k: nat, ok: bool): State
    requires k < |s.activating|
  {
    var c := s.activating[k];
    s.(pendingStart := Without(s.pendingStart, c.address), activating := s.activating[..k] + s.activating[k + 1..],
       receivers := s.receivers + if ok && c.receiver then [c] else [], senders := s.senders + if ok && c.sender then [c] else [])
  }

  function StartStep(s: State, c: Cla): State {
    if c.address in s.pendingRemoval then s
    else s.(pendingRemoval := s.pendingRemoval + {c.address}, disconnecting := s.disconnecting + [Disconnect(c, false)])
  }

  function FilterStep(s: State, k: nat): State
    requires k < |s.disconnecting|
  {
    var c := s.disconnecting[k].cla;
    s.(receivers := if c.receiver then Without(s.receivers, c.address) else s.receivers,
       senders := if c.sender then Without(s.senders, c.address) else s.senders,
       disconnecting := s.disconnecting[k := Disconnect(c, true)])
  }

  function EndStep(s: State, k: nat): State
    requires k < |s.disconnecting|
  {
    s.(pendingRemoval := s.pendingRemoval - {s.disconnecting[k].cla.address},
       disconnecting := s.disconnecting[..k] + s.disconnecting[k + 1..])
  }

  /** One step; one that is not possible changes nothing. */
  function Step(s: State, a: Action): State {
    match a
    case Register(c) => RegisterStep(s, c)
    case Activated(k, ok) => if k < |s.activating| then ActivatedStep(s, k, ok) else s
    case StartDisconnect(c) => StartStep(s, c)
    case FilterDisconnect(k) => if k < |s.disconnecting| && !s.disconnecting[k].filtered then FilterStep(s, k) else s
    case EndDisconnect(k) => if k < |s.disconnecting| && s.disconnecting[k].filtered then EndStep(s, k) else s
    case Shutdown => s.(receivers := [], senders := [])
  }

  function Run(s: State, actions: seq<Action>): State
    decreases |actions|
  {
    if actions == [] then s else Run(Step(s, actions[0]), actions[1..])
  }

  /** An adapter is registered exactly if no adapter with its address is being started, and none is on a list that it would
      join; an adapter with the same address in another role is no obstacle. It is being started then. */
  lemma RegisteredExactly(s: State, c: Cla)
    ensures var t := Step(s, Register(c));
            var free := && (forall x :: x in s.pendingStart ==> x.address != c.address)
                        && (c.receiver ==> forall x :: x in s.receivers ==> x.address != c.address)
                        && (c.sender ==> forall x :: x in s.senders ==> x.address != c.address);
            if free then t == s.(pendingStart := s.pendingStart + [c], activating := s.activating + [c]) else t == s
  {
    HasMember(s.pendingStart, c.address);
    HasMember(s.receivers, c.address);
    HasMember(s.senders, c.address);
  }

  // ---------------------------------------------------------------- lists of adapters

  ghost predicate Distinct(clas: seq<Cla>) {
    forall i, j :: 0 <= i < j < |clas| ==> clas[i].address != clas[j].address
  }

  lemma {:induction false} WithoutMembers(clas: seq<Cla>, a: Address)
    ensures forall c :: c in Without(clas, a) <==> c in clas && c.address != a
  {
    if clas != [] {
      var n := |clas| - 1;
      WithoutMembers(clas[..n], a);
      assert clas == clas[..n] + [clas[n]];
    }
  }

  lemma {:induction false} WithoutDistinct(clas: seq<Cla>, a: Address)
    requires Distinct(clas)
    ensures Distinct(Without(clas, a))
  {
    if clas != [] {
      var n := |clas| - 1;
      WithoutDistinct(clas[..n], a);
      WithoutMembers(clas[..n], a);
      var before := Without(clas[..n], a);
      forall i | 0 <= i < |before| ensures before[i].address != clas[n].address {
        assert before[i] in clas[..n];
      }
    }
  }

  lemma {:induction false} WithoutNone(clas: seq<Cla>, a: Address)
    requires !HasAddress(clas, a)
    ensures Without(clas, a) == clas
  {
    if clas != [] {
      WithoutNone(clas[..|clas| - 1], a);
    }
  }

  /** With distinct addresses, exactly one adapter is taken out. */
  lemma {:induction false} WithoutOne(clas: seq<Cla>, c: Cla)
    requires Distinct(clas) && c in clas
    ensures multiset(Without(clas, c.address)) + multiset{c} == multiset(clas)
  {
    var n := |clas| - 1;
    assert clas == clas[..n] + [clas[n]];
    if clas[n] == c {
      WithoutNone(clas[..n], c.address);
    } else {
      assert c in clas[..n];
      WithoutOne(clas[..n], c);
    }
  }

  lemma HasMember(clas: seq<Cla>, a: Address)
    ensures HasAddress(clas, a) <==> exists c :: c in clas && c.address == a
  {
    if HasAddress(clas, a) {
      var i :| 0 <= i < |clas| && clas[i].address == a;
      assert clas[i] in clas;
    }
  }

  predicate Filters(s: State, a: Action) {
    a.FilterDisconnect? && a.k < |s.disconnecting| && !s.disconnecting[a.k].filtered
  }

  predicate Activates(s: State, a: Action) {
    a.Activated? && a.k < |s.activating| && a.ok
  }

  /** Which adapters are listed after a step: one joins the lists of its roles when it was activated, all with the address of a
      disconnected one leave the lists of that one's roles, and a shutdown clears both. */
  lemma ListedAfter(s: State, a: Action, x: Cla)
    ensures x in Step(s, a).receivers <==>
      || (x in s.receivers && a != Shutdown
          && !(Filters(s, a) && s.disconnecting[a.k].cla.receiver && x.address == s.disconnecting[a.k].cla.address))
      || (Activates(s, a) && x == s.activating[a.k] && x.receiver)
    ensures x in Step(s, a).senders <==>
      || (x in s.senders && a != Shutdown
          && !(Filters(s, a) && s.disconnecting[a.k].cla.sender && x.address == s.disconnecting[a.k].cla.address))
      || (Activates(s, a) && x == s.activating[a.k] && x.sender)
  {
    hide HasAddress, Without;
    if Filters(s, a) {
      WithoutMembers(s.receivers, s.disconnecting[a.k].cla.address);
      WithoutMembers(s.senders, s.disconnecting[a.k].cla.address);
    }
  }

  predicate Ends(s: State, a: Action) {
    a.EndDisconnect? && a.k < |s.disconnecting| && s.disconnecting[a.k].filtered
  }

  /** Which adapters are being started after a step, and which addresses are being removed. A shutdown changes neither. */
  lemma PendingAfter(s: State, a: Action, x: Cla, address: Address)
    ensures x in Step(s, a).pendingStart <==>
      || (x in s.pendingStart && !(a.Activated? && a.k < |s.activating| && x.address == s.activating[a.k].address))
      || (a == Register(x) && !Present(s, x))
    ensures address in Step(s, a).pendingRemoval <==>
      || (address in s.pendingRemoval && !(Ends(s, a) && address == s.disconnecting[a.k].cla.address))
      || (a.StartDisconnect? && a.cla.address == address)
  {
    hide HasAddress, Without, Present;
    if a.Activated? && a.k < |s.activating| {
      WithoutMembers(s.pendingStart, s.activating[a.k].address);
    }
  }

  lemma WithoutHas(clas: seq<Cla>, a: Address, b: Address)
    ensures HasAddress(Without(clas, a), b) <==> HasAddress(clas, b) && a != b
  {
    hide HasAddress;
    WithoutMembers(clas, a);
    HasMember(clas, b);
    HasMember(Without(clas, a), b);
  }

  lemma AppendHas(clas: seq<Cla>, c: Cla, a: Address)
    ensures HasAddress(clas + [c], a) <==> HasAddress(clas, a) || c.address == a
  {
    hide HasAddress;
    HasMember(clas, a);
    HasMember(clas + [c], a);
  }

  lemma AppendDistinct(clas: seq<Cla>, c: Cla)
    requires Distinct(clas) && !HasAddress(clas, c.address)
    ensures Distinct(clas + [c])
  {
  }

  // ---------------------------------------------------------------- what every run keeps

  /** An adapter that is being started is not on a list that it would join. */
  ghost predicate Joinable(s: State, c: Cla) {
    && (c.receiver ==> !HasAddress(s.receivers, c.address))
    && (c.sender ==> !HasAddress(s.senders, c.address))
  }

  /** No address twice on a list; running activations are those of the pending adapters; and one disconnect for each
      address that is being removed. */
  ghost predicate Safe(s: State) {
    && Distinct(s.receivers) && Distinct(s.senders) && Distinct(s.pendingStart)
    && (forall c :: c in s.pendingStart ==> Joinable(s, c))
    && multiset(s.activating) == multiset(s.pendingStart)
    && OnePerAddress(s.disconnecting, s.pendingRemoval)
  }

  ghost predicate OnePerAddress(ds: seq<Disconnect>, removal: set<Address>) {
    && (forall k :: 0 <= k < |ds| ==> ds[k].cla.address in removal)
    && (forall j, k :: 0 <= j < k < |ds| ==> ds[j].cla.address != ds[k].cla.address)
    && (forall a :: a in removal ==> exists k :: 0 <= k < |ds| && ds[k].cla.address == a)
  }

  lemma RegisterSafe(s: State, c: Cla)
    requires Safe(s)
    ensures Safe(RegisterStep(s, c))
  {
    hide HasAddress, Distinct, OnePerAddress;
    if !Present(s, c) {
      AppendDistinct(s.pendingStart, c);
    }
  }

  /** The lists after an activation. */
  lemma ActivatedJoins(s: State, c: Cla, ok: bool, p: Cla)
    requires Safe(s) && c in s.pendingStart && p in s.pendingStart && p.address != c.address
    ensures var t := s.(receivers := s.receivers + if ok && c.receiver then [c] else [],
                        senders := s.senders + if ok && c.sender then [c] else []);
            Joinable(t, p)
  {
    hide HasAddress, Distinct, OnePerAddress;
    AppendHas(s.receivers, c, p.address);
    AppendHas(s.senders, c, p.address);
    assert s.receivers + [] == s.receivers && s.senders + [] == s.senders;
    assert Joinable(s, p);
  }

  lemma ActivatedDistinct(clas: seq<Cla>, c: Cla, add: bool)
    requires Distinct(clas) && (add ==> !HasAddress(clas, c.address))
    ensures Distinct(clas + if add then [c] else [])
  {
    hide HasAddress, Distinct;
    if add {
      AppendDistinct(clas, c);
    } else {
      assert clas + [] == clas;
    }
  }

  lemma TakenOut(clas: seq<Cla>, k: nat)
    requires k < |clas|
    ensures multiset(clas[..k] + clas[k + 1..]) + multiset{clas[k]} == multiset(clas) && clas[k] in multiset(clas)
  {
    assert clas == clas[..k] + [clas[k]] + clas[k + 1..];
  }

  lemma ActivatedSafe(s: State, k: nat, ok: bool)
    requires Safe(s) && k < |s.activating|
    ensures Safe(ActivatedStep(s, k, ok))
  {
    hide HasAddress, Distinct, OnePerAddress, Without, Joinable;
    var c := s.activating[k];
    var t := ActivatedStep(s, k, ok);
    TakenOut(s.activating, k);
    assert c in s.pendingStart && Joinable(s, c);
    WithoutOne(s.pendingStart, c);
    WithoutDistinct(s.pendingStart, c.address);
    JoinableMeans(s, c);
    ActivatedDistinct(s.receivers, c, ok && c.receiver);
    ActivatedDistinct(s.senders, c, ok && c.sender);
    WithoutMembers(s.pendingStart, c.address);
    forall p | p in t.pendingStart ensures Joinable(t, p) {
      ActivatedJoins(s, c, ok, p);
      SameLists(s.(receivers := t.receivers, senders := t.senders), t, p);
    }
    assert multiset(t.activating) + multiset{c} == multiset(t.pendingStart) + multiset{c};
    SameRest(multiset(t.activating), multiset(t.pendingStart), c);
  }

  lemma SameRest(a: multiset<Cla>, b: multiset<Cla>, c: Cla)
    requires a + multiset{c} == b + multiset{c}
    ensures a == b
  {
    assert a == a + multiset{c} - multiset{c} && b == b + multiset{c} - multiset{c};
  }

  lemma JoinableMeans(s: State, c: Cla)
    requires Joinable(s, c)
    ensures c.receiver ==> !HasAddress(s.receivers, c.address)
    ensures c.sender ==> !HasAddress(s.senders, c.address)
  {
  }

  lemma SameLists(s: State, t: State, p: Cla)
    requires s.receivers == t.receivers && s.senders == t.senders && Joinable(s, p)
    ensures Joinable(t, p)
  {
  }

  lemma StartSafe(s: State, c: Cla)
    requires Safe(s)
    ensures Safe(StartStep(s, c))
  {
    hide HasAddress, Distinct;
    var t := StartStep(s, c);
    if c.address !in s.pendingRemoval {
      forall a | a in t.pendingRemoval ensures exists k :: 0 <= k < |t.disconnecting| && t.disconnecting[k].cla.address == a {
        if a == c.address {
          assert t.disconnecting[|s.disconnecting|].cla.address == a;
        } else {
          var k :| 0 <= k < |s.disconnecting| && s.disconnecting[k].cla.address == a;
          assert t.disconnecting[k].cla.address == a;
        }
      }
    }
  }

  lemma FilterSafe(s: State, k: nat)
    requires Safe(s) && k < |s.disconnecting|
    ensures Safe(FilterStep(s, k))
  {
    hide HasAddress, Distinct, Without, OnePerAddress;
    var c := s.disconnecting[k].cla;
    var t := FilterStep(s, k);
    WithoutDistinct(s.receivers, c.address);
    WithoutDistinct(s.senders, c.address);
    forall p | p in t.pendingStart ensures Joinable(t, p) {
      assert Joinable(s, p);
      WithoutHas(s.receivers, c.address, p.address);
      WithoutHas(s.senders, c.address, p.address);
    }
    StillOnePerAddress(s.disconnecting, s.pendingRemoval, k);
  }

  lemma StillOnePerAddress(ds: seq<Disconnect>, removal: set<Address>, k: nat)
    requires OnePerAddress(ds, removal) && k < |ds|
    ensures OnePerAddress(ds[k := Disconnect(ds[k].cla, true)], removal)
  {
    var es := ds[k := Disconnect(ds[k].cla, true)];
    forall a | a in removal ensures exists j :: 0 <= j < |es| && es[j].cla.address == a {
      var j :| 0 <= j < |ds| && ds[j].cla.address == a;
      assert es[j].cla.address == a;
    }
  }

  lemma EndedOnePerAddress(ds: seq<Disconnect>, removal: set<Address>, k: nat)
    requires OnePerAddress(ds, removal) && k < |ds|
    ensures OnePerAddress(ds[..k] + ds[k + 1..], removal - {ds[k].cla.address})
  {
    var es := ds[..k] + ds[k + 1..];
    assert forall j :: 0 <= j < |es| ==> es[j] == ds[if j < k then j else j + 1];
    forall a | a in removal - {ds[k].cla.address} ensures exists j :: 0 <= j < |es| && es[j].cla.address == a {
      var j :| 0 <= j < |ds| && ds[j].cla.address == a;
      assert es[if j < k then j else j - 1].cla.address == a;
    }
  }

  lemma StepSafe(s: State, a: Action)
    requires Safe(s)
    ensures Safe(Step(s, a))
  {
    hide RegisterStep, ActivatedStep, StartStep, FilterStep, HasAddress, OnePerAddress;
    match a
    case Register(c) => RegisterSafe(s, c);
    case Activated(k, ok) =>
      if k < |s.activating| {
        ActivatedSafe(s, k, ok);
      }
    case StartDisconnect(c) => StartSafe(s, c);
    case FilterDisconnect(k) =>
      if k < |s.disconnecting| {
        FilterSafe(s, k);
      }
    case EndDisconnect(k) =>
      if k < |s.disconnecting| {
        EndedOnePerAddress(s.disconnecting, s.pendingRemoval, k);
      }
    case Shutdown =>
      assert forall c :: c in s.pendingStart ==> !HasAddress([], c.address) by { NoAddresses(); }
  }

  lemma NoAddresses()
    ensures forall a :: !HasAddress([], a)
  {
  }

  lemma {:induction false} RunSafe(s: State, actions: seq<Action>)
    requires Safe(s)
    ensures Safe(Run(s, actions))
    decreases |actions|
  {
    hide Safe, Step;
    if actions != [] {
      StepSafe(s, actions[0]);
      RunSafe(Step(s, actions[0]), actions[1..]);
    }
  }

  /** In every interleaving: no address is twice among the receivers, the senders or the adapters being started; none of
      the latter would join a list that has its address already; an address is being activated at most once, and exactly
      while it is pending; and a disconnect is in progress for exactly the addresses marked for removal, one for each. */
  lemma ManagerInvariant(actions: seq<Action>)
    ensures var s := Run(INITIAL, actions);
            && Distinct(s.receivers) && Distinct(s.senders) && Distinct(s.pendingStart) && Distinct(s.activating)
            && (forall c :: c in s.pendingStart ==> Joinable(s, c))
            && (forall c :: c in s.activating <==> c in s.pendingStart) && |s.activating| == |s.pendingStart|
            && OnePerAddress(s.disconnecting, s.pendingRemoval)
  {
    hide Run, Joinable, OnePerAddress, HasAddress;
    assert Safe(INITIAL) by { InitialSafe(); }
    RunSafe(INITIAL, actions);
    var s := Run(INITIAL, actions);
    SameElements(s.activating, s.pendingStart);
    AddressesDistinct(s.pendingStart);
    AddressesDistinct(s.activating);
    DistinctPermuted(AddressOf, s.pendingStart, s.activating);
  }

  function AddressOf(c: Cla): Address {
    c.address
  }

  lemma AddressesDistinct(clas: seq<Cla>)
    ensures Distinct(clas) <==> DistinctBy(AddressOf, clas)
  {
  }

  lemma InitialSafe()
    ensures Safe(INITIAL)
  {
  }

  /** A disconnect that is over before the activation is does not keep the adapter off the lists. */
  lemma DisconnectBeforeActivation(c: Cla)
    requires c.sender
    ensures var s := Run(INITIAL, [Register(c), StartDisconnect(c), FilterDisconnect(0), EndDisconnect(0), Activated(0, true)]);
            s.senders == [c] && s.disconnecting == [] && s.pendingRemoval == {}
  {
    var s1 := INITIAL.(pendingStart := [c], activating := [c]);
    var s2 := s1.(pendingRemoval := {c.address}, disconnecting := [Disconnect(c, false)]);
    var s3 := s2.(disconnecting := [Disconnect(c, true)]);
    var acts := [Register(c), StartDisconnect(c), FilterDisconnect(0), EndDisconnect(0), Activated(0, true)];
    assert Step(INITIAL, acts[0]) == s1;
    assert Step(s1, acts[1]) == s2;
    assert Step(s2, acts[2]) == s3;
    assert Step(s3, acts[3]) == s1;
    var s5 := Step(s1, acts[4]);
    assert s5.senders == [c];
    assert Run(s5, acts[5..]) == s5;
    assert acts[4..][1..] == acts[5..] && Run(s1, acts[4..]) == s5;
    assert acts[3..][1..] == acts[4..] && Run(s3, acts[3..]) == s5;
    assert acts[2..][1..] == acts[3..] && Run(s2, acts[2..]) == s5;
    assert acts[1..][1..] == acts[2..] && Run(s1, acts[1..]) == s5;
  }

  // ---------------------------------------------------------------- when a disconnected adapter comes back

  datatype Role = Receiving | Sending

  function ListOf(s: State, role: Role): seq<Cla> {
    if role.Receiving? then s.receivers else s.senders
  }

  predicate Plays(c: Cla, role: Role) {
    if role.Receiving? then c.receiver else c.sender
  }

  /** The action ends a successful activation of an adapter with this address and role. */
  predicate Joins(s: State, act: Action, a: Address, role: Role) {
    act.Activated? && act.ok && act.k < |s.activating| && s.activating[act.k].address == a && Plays(s.activating[act.k], role)
  }

  predicate JoinsInRun(s: State, actions: seq<Action>, a: Address, role: Role)
    decreases |actions|
  {
    actions != [] && (Joins(s, actions[0], a, role) || JoinsInRun(Step(s, actions[0]), actions[1..], a, role))
  }

  /** Neither a shutdown nor the filter step of another disconnect of the address. */
  predicate LeavesAlone(s: State, act: Action, a: Address) {
    !act.Shutdown? && !(act.FilterDisconnect? && act.k < |s.disconnecting| && s.disconnecting[act.k].cla.address == a)
  }

  predicate Undisturbed(s: State, actions: seq<Action>, a: Address)
    decreases |actions|
  {
    actions == [] || (LeavesAlone(s, actions[0], a) && Undisturbed(Step(s, actions[0]), actions[1..], a))
  }

  lemma ListedAfterStep(s: State, act: Action, a: Address, role: Role)
    requires LeavesAlone(s, act, a)
    ensures HasAddress(ListOf(Step(s, act), role), a) <==> HasAddress(ListOf(s, role), a) || Joins(s, act, a, role)
  {
    hide HasAddress, Without, Present;
    if act.Activated? && act.k < |s.activating| {
      var c := s.activating[act.k];
      AppendHas(ListOf(s, role), c, a);
      assert ListOf(s, role) + [] == ListOf(s, role);
    } else if act.FilterDisconnect? && act.k < |s.disconnecting| {
      WithoutHas(ListOf(s, role), s.disconnecting[act.k].cla.address, a);
    }
  }

  /** In every run that leaves an address alone, it is on a list in the end exactly if it was at the beginning, or a
      successful activation of an adapter with the address and that role ended in the run. */
  lemma {:induction false} ListedExactly(s: State, actions: seq<Action>, a: Address, role: Role)
    requires Undisturbed(s, actions, a)
    ensures HasAddress(ListOf(Run(s, actions), role), a) <==> HasAddress(ListOf(s, role), a) || JoinsInRun(s, actions, a, role)
    decreases |actions|
  {
    hide HasAddress, Step, Joins, LeavesAlone, ListOf;
    if actions != [] {
      ListedAfterStep(s, actions[0], a, role);
      ListedExactly(Step(s, actions[0]), actions[1..], a, role);
    }
  }

  /** An adapter with the address and role is being started. */
  ghost predicate Starting(clas: seq<Cla>, a: Address, role: Role) {
    exists c :: c in clas && c.address == a && Plays(c, role)
  }

  predicate Registers(actions: seq<Action>, a: Address) {
    exists i :: 0 <= i < |actions| && actions[i].Register? && actions[i].cla.address == a
  }

  lemma NothingStarts(s: State, act: Action, a: Address, role: Role)
    requires !Starting(s.activating, a, role) && !(act.Register? && act.cla.address == a)
    ensures !Joins(s, act, a, role) && !Starting(Step(s, act).activating, a, role)
  {
    hide Present, Without, HasAddress;
    assert forall k :: 0 <= k < |s.activating| ==> s.activating[k] in s.activating;
    forall c | c in Step(s, act).activating ensures c in s.activating || (act.Register? && c == act.cla) {
    }
  }

  /** Shutdowns and disconnects only take adapters off the lists. */
  lemma OnlyJoiningLists(s: State, act: Action, a: Address, role: Role)
    requires !HasAddress(ListOf(s, role), a) && !Joins(s, act, a, role)
    ensures !HasAddress(ListOf(Step(s, act), role), a)
  {
    hide HasAddress, Without, Present;
    if LeavesAlone(s, act, a) {
      ListedAfterStep(s, act, a, role);
    } else if act.FilterDisconnect? {
      WithoutHas(ListOf(s, role), s.disconnecting[act.k].cla.address, a);
    } else {
      NobodyListed(a);
    }
  }

  lemma NobodyListed(a: Address)
    ensures !HasAddress([], a)
  {
  }

  lemma {:induction false} NothingReturns(s: State, actions: seq<Action>, a: Address, role: Role)
    requires !Starting(s.activating, a, role) && !HasAddress(ListOf(s, role), a) && !Registers(actions, a)
    ensures !HasAddress(ListOf(Run(s, actions), role), a)
    decreases |actions|
  {
    hide Step, Starting, Joins, HasAddress, ListOf;
    if actions != [] {
      assert !(actions[0].Register? && actions[0].cla.address == a);
      NothingStarts(s, actions[0], a, role);
      OnlyJoiningLists(s, actions[0], a, role);
      forall i | 0 <= i < |actions[1..]| ensures !(actions[1..][i].Register? && actions[1..][i].cla.address == a) {
        assert actions[1..][i] == actions[i + 1];
      }
      NothingReturns(Step(s, actions[0]), actions[1..], a, role);
    }
  }

  lemma SameStarting(a: seq<Cla>, b: seq<Cla>, address: Address, role: Role)
    requires multiset(a) == multiset(b)
    ensures Starting(a, address, role) <==> Starting(b, address, role)
  {
    SameElements(a, b);
  }

  /** An adapter that is being started ends up on its lists if its activation succeeds next. */
  lemma StartingReturns(s: State, a: Address, role: Role) returns (act: Action)
    requires Starting(s.activating, a, role)
    ensures Undisturbed(s, [act], a) && !Registers([act], a) && HasAddress(ListOf(Run(s, [act]), role), a)
  {
    hide HasAddress, Step;
    var c :| c in s.activating && c.address == a && Plays(c, role);
    var k :| 0 <= k < |s.activating| && s.activating[k] == c;
    act := Activated(k, true);
    assert [act][1..] == [] && Run(Step(s, act), []) == Step(s, act);
    assert Undisturbed(Step(s, act), [], a);
    ListedAfterStep(s, act, a, role);
  }

  /** The state after a disconnect took its adapter off the lists. */
  ghost predicate Disconnected(s: State, a: Address, role: Role) {
    Safe(s) && !HasAddress(ListOf(s, role), a)
  }

  lemma FilterDisconnects(s: State, k: nat, role: Role)
    requires Safe(s) && k < |s.disconnecting| && !s.disconnecting[k].filtered && Plays(s.disconnecting[k].cla, role)
    ensures Disconnected(Step(s, FilterDisconnect(k)), s.disconnecting[k].cla.address, role)
  {
    hide HasAddress, Without, Safe, Step;
    StepSafe(s, FilterDisconnect(k));
    assert ListOf(Step(s, FilterDisconnect(k)), role) == Without(ListOf(s, role), s.disconnecting[k].cla.address) by {
      FilteredList(s, k, role);
    }
    WithoutHas(ListOf(s, role), s.disconnecting[k].cla.address, s.disconnecting[k].cla.address);
  }

  lemma FilteredList(s: State, k: nat, role: Role)
    requires k < |s.disconnecting| && !s.disconnecting[k].filtered && Plays(s.disconnecting[k].cla, role)
    ensures ListOf(Step(s, FilterDisconnect(k)), role) == Without(ListOf(s, role), s.disconnecting[k].cla.address)
  {
    hide Without;
  }

  /** The adapter stays off the list in every run that registers none with its address, further disconnects and shutdowns
      included. */
  ghost predicate StaysOff(s: State, a: Address, role: Role) {
    forall actions :: !Registers(actions, a) ==> !HasAddress(ListOf(Run(s, actions), role), a)
  }

  /** After a disconnect, its adapter stays off the list, whatever happens, until one with the address is registered again,
      exactly if none with the address and role is being started at the time: which a caller can look up among the pending
      adapters. */
  lemma DisconnectExactly(s: State, k: nat, role: Role)
    requires Safe(s) && k < |s.disconnecting| && !s.disconnecting[k].filtered && Plays(s.disconnecting[k].cla, role)
    ensures var a := s.disconnecting[k].cla.address;
            StaysOff(Step(s, FilterDisconnect(k)), a, role) <==> !Starting(s.pendingStart, a, role)
  {
    hide HasAddress, Safe, Step, Starting, Undisturbed, Registers, Run, ListOf;
    var a := s.disconnecting[k].cla.address;
    var t := Step(s, FilterDisconnect(k));
    FilterDisconnects(s, k, role);
    assert t.activating == s.activating by { SameActivating(s, k); }
    assert multiset(s.activating) == multiset(s.pendingStart) by { Matching(s); }
    SameStarting(s.activating, s.pendingStart, a, role);
    if Starting(t.activating, a, role) {
      var act := StartingReturns(t, a, role);
    } else {
      forall actions | !Registers(actions, a) ensures !HasAddress(ListOf(Run(t, actions), role), a) {
        NothingReturns(t, actions, a, role);
      }
    }
  }

  lemma SameActivating(s: State, k: nat)
    requires k < |s.disconnecting|
    ensures Step(s, FilterDisconnect(k)).activating == s.activating
  {
    hide Without;
  }

  lemma Matching(s: State)
    requires Safe(s)
    ensures multiset(s.activating) == multiset(s.pendingStart)
  {
    hide OnePerAddress, Distinct, Joinable;
  }

  // ---------------------------------------------------------------- the manager as an object

  method FilterOut(clas: seq<Cla>, a: Address) returns (left: seq<Cla>)
    ensures left == Without(clas, a)
  {
    left := [];
    for i := 0 to |clas|
      invariant left == Without(clas[..i], a)
    {
      assert clas[..i + 1][..i] == clas[..i];
      if clas[i].address != a {
        left := left + [clas[i]];
      }
    }
    assert clas[..|clas|] == clas;
  }

  method FindAddress(clas: seq<Cla>, a: Address) returns (found: bool)
    ensures found == HasAddress(clas, a)
  {
    for i := 0 to |clas|
      invariant forall j :: 0 <= j < i ==> clas[j].address != a
    {
      if clas[i].address == a {
        return true;
      }
    }
    return false;
  }

  class Manager {
    var receivers: seq<Cla>
    var senders: seq<Cla>
    var pendingStart: seq<Cla>
    var pendingRemoval: set<Address>
    /** The goroutines in progress. */
    var activating: seq<Cla>
    var disconnecting: seq<Disconnect>

    constructor ()
      ensures View() == INITIAL
    {
      receivers, senders, pendingStart, activating := [], [], [], [];
      pendingRemoval := {};
      disconnecting := [];
    }

    function View(): State
      reads this
    {
      State(receivers, senders, pendingStart, pendingRemoval, activating, disconnecting)
    }

    method CheckPresent(c: Cla) returns (present: bool)
      ensures present == Present(View(), c)
    {
      present := FindAddress(pendingStart, c.address);
      if !present && c.receiver {
        present := FindAddress(receivers, c.address);
      }
      if !present && c.sender {
        present := FindAddress(senders, c.address);
      }
    }

    method RegisterAsync(c: Cla)
      modifies this
      ensures View() == Step(old(View()), Register(c))
    {
      var present := CheckPresent(c);
      if present {
        return;
      }
      pendingStart := pendingStart + [c];
      activating := activating + [c];
    }

    /** The locked part of activateCLA, after the adapter's own activation succeeded or failed. */
    method EndActivation(k: nat, ok: bool)
      requires k < |activating|
      modifies this
      ensures View() == Step(old(View()), Activated(k, ok))
    {
      var c := activating[k];
      activating := activating[..k] + activating[k + 1..];
      pendingStart := FilterOut(pendingStart, c.address);
      if ok {
        if c.receiver {
          receivers := receivers + [c];
        }
        if c.sender {
          senders := senders + [c];
        }
      }
    }

    method StartNotifyDisconnect(c: Cla)
      modifies this
      ensures View() == Step(old(View()), StartDisconnect(c))
    {
      if c.address in pendingRemoval {
        return;
      }
      pendingRemoval := pendingRemoval + {c.address};
      disconnecting := disconnecting + [Disconnect(c, false)];
    }

    method RemoveDisconnected(k: nat)
      requires k < |disconnecting| && !disconnecting[k].filtered
      modifies this
      ensures View() == Step(old(View()), FilterDisconnect(k))
    {
      var c := disconnecting[k].cla;
      if c.receiver {
        receivers := FilterOut(receivers, c.address);
      }
      if c.sender {
        senders := FilterOut(senders, c.address);
      }
      disconnecting := disconnecting[k := Disconnect(c, true)];
    }

    method EndNotifyDisconnect(k: nat)
      requires k < |disconnecting| && disconnecting[k].filtered
      modifies this
      ensures View() == Step(old(View()), EndDisconnect(k))
    {
      pendingRemoval := pendingRemoval - {disconnecting[k].cla.address};
      disconnecting := disconnecting[..k] + disconnecting[k + 1..];
    }

    /** The adapters on the lists are closed in the background. */
    method ShutDown()
      modifies this
      ensures View() == Step(old(View()), Shutdown)
    {
      receivers := [];
      senders := [];
    }
  }
}
