/** Epidemic flooding of one bundle: who is sent to again, and how often that can succeed in all. */
module EpidemicNetwork {
  import opened Endpoint
  import Numbering
  import opened Routing

  /** A forwarding that is going on: the senders selected, and the peers to which one of them succeeded. */
  datatype Round = Round(selected: seq<Sender>, done: set<EndpointID>)

  /** A bundle at a node, from its arrival until the node drops it; its forwardings may still go on then. `reached` and
      `successes` record the peers it was sent to and, added up over all peers, in how many rounds that succeeded. */
  datatype Life = Life(node: EndpointID, known: seq<EndpointID>, reached: set<EndpointID>, successes: nat, rounds: seq<Round>)

  /** `current` leads from the nodes that have the bundle to its life there. */
  datatype Network = Network(lives: seq<Life>, current: map<EndpointID, nat>, drops: nat) {
    ghost predicate Valid() {
      && (forall n :: n in current ==> current[n] < |lives| && lives[current[n]].node == n)
      && |lives| == |current| + drops
    }

    predicate Alive(l: nat)
      requires l < |lives|
    {
      lives[l].node in current && current[lives[l].node] == l
    }
  }

  const EMPTY := Network([], map[], 0)

  /** `previous` is the name of the previous node if the bundle carries one. Transmissions that fail change nothing. */
  datatype Action =
    | Arrive(node: EndpointID, previous: seq<EndpointID>)
    | Begin(node: EndpointID, peers: seq<Sender>)
    | Succeed(life: nat, round: nat, i: nat)
    | End(life: nat, round: nat)
    | Drop(node: EndpointID)

  /** EpidemicRouting sends to every peer that is not known to have the bundle. */
  function SelectPeers(l: Life, peers: seq<Sender>): seq<Sender> {
    FilterPeers(l.known, peers)
  }

  predicate Enabled(s: Network, a: Action)
    requires s.Valid()
  {
    match a
    case Arrive(_, _) => true
    case Begin(node, _) => node in s.current
    case Succeed(l, r, i) => l < |s.lives| && r < |s.lives[l].rounds| && i < |s.lives[l].rounds[r].selected|
    case End(l, r) => l < |s.lives| && r < |s.lives[l].rounds|
    case Drop(node) => node in s.current
  }

  /** The life that a step changes, and what it becomes. */
  function Changed(s: Network, k: nat, l: Life): Network
    requires s.Valid() && k < |s.lives| && l.node == s.lives[k].node
  {
    s.(lives := s.lives[k := l])
  }

  function ArriveStep(s: Network, node: EndpointID, previous: seq<EndpointID>): Network
    requires s.Valid()
  {
    if node in s.current then
      var l := s.lives[s.current[node]];
      Changed(s, s.current[node], l.(known := l.known + previous))
    else s.(lives := s.lives + [Life(node, [node] + previous, {}, 0, [])], current := s.current[node := |s.lives|])
  }

  function BeginStep(s: Network, node: EndpointID, peers: seq<Sender>): Network
    requires s.Valid() && node in s.current
  {
    var l := s.lives[s.current[node]];
    Changed(s, s.current[node], l.(rounds := l.rounds + [Round(SelectPeers(l, peers), {})]))
  }

  /** A peer counts once a round. A deleted bundle learns of no more holders. */
  function Reaching(l: Life, alive: bool, r: nat, peer: EndpointID): Life
    requires r < |l.rounds|
  {
    var known := if alive then l.known + [peer] else l.known;
    var done := l.rounds[r].done;
    Life(l.node, known, l.reached + {peer}, if peer in done then l.successes else l.successes + 1,
         l.rounds[r := l.rounds[r].(done := done + {peer})])
  }

  function Step(s: Network, a: Action): Network
    requires s.Valid()
  {
    if !Enabled(s, a) then s
    else
      match a
      case Arrive(node, previous) => ArriveStep(s, node, previous)
      case Begin(node, peers) => BeginStep(s, node, peers)
      case Succeed(l, r, i) =>
        Changed(s, l, Reaching(s.lives[l], s.Alive(l), r, s.lives[l].rounds[r].selected[i].peer))
      case End(l, r) =>
        Changed(s, l, s.lives[l].(rounds := s.lives[l].rounds[..r] + s.lives[l].rounds[r + 1..]))
      case Drop(node) => s.(current := s.current - {node}, drops := s.drops + 1)
  }

  lemma DropValid(s: Network, node: EndpointID)
    requires s.Valid() && node in s.current
    ensures s.(current := s.current - {node}, drops := s.drops + 1).Valid()
  {
    assert (s.current - {node}).Keys == s.current.Keys - {node};
    assert |s.current - {node}| == |(s.current - {node}).Keys| && |s.current| == |s.current.Keys|;
  }

  lemma ArriveValid(s: Network, node: EndpointID, previous: seq<EndpointID>)
    requires s.Valid()
    ensures ArriveStep(s, node, previous).Valid() && |ArriveStep(s, node, previous).lives| >= |s.lives|
  {
    if node !in s.current {
      MapGrows(s.current, node, |s.lives|);
    }
  }

  lemma MapGrows(m: map<EndpointID, nat>, k: EndpointID, v: nat)
    requires k !in m
    ensures |m[k := v]| == |m| + 1
  {
    assert m[k := v].Keys == m.Keys + {k};
    assert |m[k := v]| == |m[k := v].Keys| && |m| == |m.Keys|;
  }

  lemma StepValid(s: Network, a: Action)
    requires s.Valid()
    ensures Step(s, a).Valid() && |Step(s, a).lives| >= |s.lives|
  {
    hide ArriveStep, SelectPeers;
    if a.Drop? && Enabled(s, a) {
      DropValid(s, a.node);
    }
    if a.Arrive? {
      ArriveValid(s, a.node, a.previous);
    }
  }

  ghost function Run(s: Network, actions: seq<Action>): (t: Network)
    requires s.Valid()
    ensures t.Valid() && |t.lives| >= |s.lives|
    decreases |actions|
  {
    if actions == [] then s
    else
      StepValid(s, actions[0]);
      Run(Step(s, actions[0]), actions[1..])
  }

  // ---------------------------------------------------------------- who is sent to again

  /** The nodes and peers of a run belong to a fixed set. */
  ghost predicate Within(a: Action, nodes: set<EndpointID>) {
    && (a.Arrive? ==> a.node in nodes)
    && (a.Begin? ==> forall i :: 0 <= i < |a.peers| ==> a.peers[i].peer in nodes)
  }

  ghost predicate Elsewhere(node: EndpointID, r: Round, nodes: set<EndpointID>) {
    forall i :: 0 <= i < |r.selected| ==> r.selected[i].peer in nodes - {node}
  }

  /** A life knows its own node and, until it ends, all peers it reached. */
  ghost predicate Sound(l: Life, alive: bool, nodes: set<EndpointID>) {
    && l.node in nodes && l.node in l.known && l.reached <= nodes - {l.node}
    && (alive ==> forall e :: e in l.reached ==> e in l.known)
    && (forall r :: 0 <= r < |l.rounds| ==> Elsewhere(l.node, l.rounds[r], nodes))
  }

  ghost predicate AllSound(s: Network, nodes: set<EndpointID>) {
    forall l :: 0 <= l < |s.lives| ==> Sound(s.lives[l], s.Alive(l), nodes)
  }

  lemma SelectedIsNew(l: Life, peers: seq<Sender>, nodes: set<EndpointID>)
    requires l.node in l.known && forall i :: 0 <= i < |peers| ==> peers[i].peer in nodes
    ensures Elsewhere(l.node, Round(SelectPeers(l, peers), {}), nodes)
    ensures forall i :: 0 <= i < |SelectPeers(l, peers)| ==> SelectPeers(l, peers)[i].peer !in l.known
  {
    hide FilterPeers;
    FilteredPeers(l.known, peers);
    var selected := SelectPeers(l, peers);
    forall i | 0 <= i < |selected| ensures selected[i].peer in nodes && selected[i].peer !in l.known {
      assert selected[i] in selected && selected[i] in peers;
    }
  }

  lemma ChangedSound(s: Network, k: nat, l: Life, nodes: set<EndpointID>)
    requires s.Valid() && AllSound(s, nodes) && k < |s.lives| && l.node == s.lives[k].node && Sound(l, s.Alive(k), nodes)
    ensures Changed(s, k, l).Valid() && AllSound(Changed(s, k, l), nodes)
  {
    hide Sound;
    var t := Changed(s, k, l);
    forall j | 0 <= j < |t.lives| ensures t.Alive(j) == s.Alive(j) {
    }
  }

  lemma ArriveSound(s: Network, node: EndpointID, previous: seq<EndpointID>, nodes: set<EndpointID>)
    requires s.Valid() && AllSound(s, nodes) && node in nodes
    ensures ArriveStep(s, node, previous).Valid() && AllSound(ArriveStep(s, node, previous), nodes)
  {
    hide Elsewhere;
    ArriveValid(s, node, previous);
    if node in s.current {
      var l := s.lives[s.current[node]];
      assert Sound(l, true, nodes);
      ChangedSound(s, s.current[node], l.(known := l.known + previous), nodes);
    } else {
      NewSound(s, node, previous, nodes);
    }
  }

  lemma NewSound(s: Network, node: EndpointID, previous: seq<EndpointID>, nodes: set<EndpointID>)
    requires s.Valid() && AllSound(s, nodes) && node in nodes && node !in s.current
    ensures AllSound(ArriveStep(s, node, previous), nodes)
  {
    var t := ArriveStep(s, node, previous);
    assert Sound(t.lives[|s.lives|], true, nodes);
    hide Sound;
    forall l | 0 <= l < |s.lives| ensures t.lives[l] == s.lives[l] && t.Alive(l) == s.Alive(l) {
    }
  }

  lemma BeginSound(s: Network, node: EndpointID, peers: seq<Sender>, nodes: set<EndpointID>)
    requires s.Valid() && AllSound(s, nodes) && node in s.current && Within(Begin(node, peers), nodes)
    ensures BeginStep(s, node, peers).Valid() && AllSound(BeginStep(s, node, peers), nodes)
  {
    hide SelectPeers, Elsewhere;
    var l := s.lives[s.current[node]];
    assert Sound(l, true, nodes);
    SelectedIsNew(l, peers, nodes);
    ChangedSound(s, s.current[node], l.(rounds := l.rounds + [Round(SelectPeers(l, peers), {})]), nodes);
  }

  lemma ReachingSound(l: Life, alive: bool, r: nat, i: nat, nodes: set<EndpointID>)
    requires Sound(l, alive, nodes) && r < |l.rounds| && i < |l.rounds[r].selected|
    ensures var after := Reaching(l, alive, r, l.rounds[r].selected[i].peer); Sound(after, alive, nodes) && after.node == l.node
  {
    assert Elsewhere(l.node, l.rounds[r], nodes);
  }

  lemma DropSound(s: Network, node: EndpointID, nodes: set<EndpointID>)
    requires s.Valid() && AllSound(s, nodes) && node in s.current
    ensures var t := s.(current := s.current - {node}, drops := s.drops + 1); t.Valid() && AllSound(t, nodes)
  {
    hide Elsewhere;
    DropValid(s, node);
    var t := s.(current := s.current - {node}, drops := s.drops + 1);
    forall l | 0 <= l < |t.lives| ensures Sound(t.lives[l], t.Alive(l), nodes) {
      assert Sound(s.lives[l], s.Alive(l), nodes);
    }
  }

  lemma StepSound(s: Network, a: Action, nodes: set<EndpointID>)
    requires s.Valid() && AllSound(s, nodes) && Within(a, nodes)
    ensures Step(s, a).Valid() && AllSound(Step(s, a), nodes)
  {
    hide AllSound, ArriveStep, BeginStep, Changed, Reaching, Sound;
    StepValid(s, a);
    if Enabled(s, a) {
      match a
      case Arrive(node, previous) => ArriveSound(s, node, previous, nodes);
      case Begin(node, peers) => BeginSound(s, node, peers, nodes);
      case Succeed(k, r, i) => SucceedSound(s, k, r, i, nodes);
      case End(k, r) => EndSound(s, k, r, nodes);
      case Drop(node) => DropSound(s, node, nodes);
    }
  }

  lemma SoundAt(s: Network, k: nat, nodes: set<EndpointID>)
    requires s.Valid() && AllSound(s, nodes) && k < |s.lives|
    ensures Sound(s.lives[k], s.Alive(k), nodes)
  {
  }

  lemma SucceedSound(s: Network, k: nat, r: nat, i: nat, nodes: set<EndpointID>)
    requires s.Valid() && AllSound(s, nodes) && Enabled(s, Succeed(k, r, i))
    ensures AllSound(Changed(s, k, Reaching(s.lives[k], s.Alive(k), r, s.lives[k].rounds[r].selected[i].peer)), nodes)
  {
    hide AllSound, Reaching, Sound;
    SoundAt(s, k, nodes);
    ReachingSound(s.lives[k], s.Alive(k), r, i, nodes);
    ChangedSound(s, k, Reaching(s.lives[k], s.Alive(k), r, s.lives[k].rounds[r].selected[i].peer), nodes);
  }

  lemma EndSound(s: Network, k: nat, r: nat, nodes: set<EndpointID>)
    requires s.Valid() && AllSound(s, nodes) && Enabled(s, End(k, r))
    ensures AllSound(Changed(s, k, s.lives[k].(rounds := s.lives[k].rounds[..r] + s.lives[k].rounds[r + 1..])), nodes)
  {
    hide AllSound, Elsewhere;
    SoundAt(s, k, nodes);
    ChangedSound(s, k, s.lives[k].(rounds := s.lives[k].rounds[..r] + s.lives[k].rounds[r + 1..]), nodes);
  }

  lemma {:induction false} RunSound(s: Network, actions: seq<Action>, nodes: set<EndpointID>)
    requires s.Valid() && AllSound(s, nodes) && forall i :: 0 <= i < |actions| ==> Within(actions[i], nodes)
    ensures AllSound(Run(s, actions), nodes)
    decreases |actions|
  {
    hide AllSound, Within, Step;
    if actions != [] {
      StepSound(s, actions[0], nodes);
      RunSound(Step(s, actions[0]), actions[1..], nodes);
    }
  }

  /** In every run, however forwardings overlap: as long as a node has the bundle, it selects neither itself, nor a known
      holder, nor a peer it once reached. */
  lemma NeverAgain(actions: seq<Action>, node: EndpointID, peers: seq<Sender>, nodes: set<EndpointID>)
    requires forall i :: 0 <= i < |actions| ==> Within(actions[i], nodes)
    requires node in Run(EMPTY, actions).current
    ensures var s := Run(EMPTY, actions);
            var l := s.lives[s.current[node]];
            forall cs :: cs in SelectPeers(l, peers) ==> cs.peer != node && cs.peer !in l.reached && cs.peer !in l.known
  {
    hide Run, FilterPeers;
    RunSound(EMPTY, actions, nodes);
    var s := Run(EMPTY, actions);
    var l := s.lives[s.current[node]];
    assert Sound(l, true, nodes);
    FilteredPeers(l.known, peers);
  }

  /** Known holders are never forgotten: neither the previous nodes named on arrival nor the peers reached. */
  lemma {:induction false} KnownGrows(s: Network, actions: seq<Action>, l: nat, e: EndpointID)
    requires s.Valid() && l < |s.lives| && e in s.lives[l].known
    ensures e in Run(s, actions).lives[l].known
    decreases |actions|
  {
    hide SelectPeers;
    if actions != [] {
      StepValid(s, actions[0]);
      assert e in Step(s, actions[0]).lives[l].known;
      KnownGrows(Step(s, actions[0]), actions[1..], l, e);
    }
  }

  // ---------------------------------------------------------------- how many transmissions succeed

  /** None of the senders leads to a peer that a forwarding which is going on has selected. */
  predicate Apart(l: Life, selected: seq<Sender>) {
    forall r, i, j :: 0 <= r < |l.rounds| && 0 <= i < |l.rounds[r].selected| && 0 <= j < |selected| ==>
      l.rounds[r].selected[i].peer != selected[j].peer
  }

  /** A forwarding begins only when it selects no peer that another one going on at that node has selected. */
  predicate Guarded(s: Network, a: Action)
    requires s.Valid()
  {
    a.Begin? && a.node in s.current ==> Apart(s.lives[s.current[a.node]], SelectPeers(s.lives[s.current[a.node]], a.peers))
  }

  ghost predicate AllGuarded(s: Network, actions: seq<Action>)
    requires s.Valid()
    decreases |actions|
  {
    actions != [] ==> (StepValid(s, actions[0]); Guarded(s, actions[0]) && AllGuarded(Step(s, actions[0]), actions[1..]))
  }

  /** No peer was reached in two rounds. */
  ghost predicate Counted(l: Life) {
    l.successes == |l.reached|
  }

  /** A round that has selected a peer which was reached has reached it itself. */
  ghost predicate OwnPeers(reached: set<EndpointID>, r: Round) {
    r.done <= reached && forall i :: 0 <= i < |r.selected| && r.selected[i].peer in reached ==> r.selected[i].peer in r.done
  }

  ghost predicate Disjoint(q: Round, r: Round) {
    forall i, j :: 0 <= i < |q.selected| && 0 <= j < |r.selected| ==> q.selected[i].peer != r.selected[j].peer
  }

  /** No peer was or will be reached in two of the rounds so far. */
  ghost predicate Once(l: Life) {
    && Counted(l)
    && (forall r :: 0 <= r < |l.rounds| ==> OwnPeers(l.reached, l.rounds[r]))
    && (forall q, r :: 0 <= q < r < |l.rounds| ==> Disjoint(l.rounds[q], l.rounds[r]))
  }

  ghost predicate AllOnce(s: Network) {
    forall l :: 0 <= l < |s.lives| ==> Once(s.lives[l])
  }

  lemma ReachingOnce(l: Life, alive: bool, r: nat, i: nat)
    requires Once(l) && r < |l.rounds| && i < |l.rounds[r].selected|
    ensures Once(Reaching(l, alive, r, l.rounds[r].selected[i].peer))
  {
    var peer := l.rounds[r].selected[i].peer;
    var t := Reaching(l, alive, r, peer);
    assert OwnPeers(l.reached, l.rounds[r]);
    assert peer in l.reached ==> l.reached + {peer} == l.reached;
    forall q | 0 <= q < |t.rounds| ensures OwnPeers(t.reached, t.rounds[q]) {
      assert OwnPeers(l.reached, l.rounds[q]);
      assert q < r ==> Disjoint(l.rounds[q], l.rounds[r]);
      assert r < q ==> Disjoint(l.rounds[r], l.rounds[q]);
    }
    forall p, q | 0 <= p < q < |t.rounds| ensures Disjoint(t.rounds[p], t.rounds[q]) {
      assert Disjoint(l.rounds[p], l.rounds[q]);
    }
  }

  lemma BeginOnce(l: Life, peers: seq<Sender>, nodes: set<EndpointID>)
    requires Once(l) && Apart(l, SelectPeers(l, peers))
    requires Sound(l, true, nodes) && forall i :: 0 <= i < |peers| ==> peers[i].peer in nodes
    ensures Once(l.(rounds := l.rounds + [Round(SelectPeers(l, peers), {})]))
  {
    hide SelectPeers, Elsewhere;
    SelectedIsNew(l, peers, nodes);
    var r := Round(SelectPeers(l, peers), {});
    assert OwnPeers(l.reached, r);
    forall q | 0 <= q < |l.rounds| ensures Disjoint(l.rounds[q], r) {
    }
  }

  lemma EndOnce(l: Life, r: nat)
    requires Once(l) && r < |l.rounds|
    ensures Once(l.(rounds := l.rounds[..r] + l.rounds[r + 1..]))
  {
    hide OwnPeers, Disjoint;
    var rounds := l.rounds[..r] + l.rounds[r + 1..];
    forall k | 0 <= k < |rounds| ensures rounds[k] == l.rounds[if k < r then k else k + 1] {
    }
  }

  lemma StepOnce(s: Network, a: Action, nodes: set<EndpointID>)
    requires s.Valid() && AllSound(s, nodes) && AllOnce(s) && Within(a, nodes) && Guarded(s, a)
    ensures AllOnce(Step(s, a))
  {
    hide SelectPeers, Reaching, Once, Sound, AllSound, Apart;
    if Enabled(s, a) {
      match a
      case Arrive(node, previous) => ArriveOnce(s, node, previous);
      case Begin(node, peers) =>
        SoundAt(s, s.current[node], nodes);
        BeginOnce(s.lives[s.current[node]], peers, nodes);
      case Succeed(k, r, i) => ReachingOnce(s.lives[k], s.Alive(k), r, i);
      case End(k, r) => EndOnce(s.lives[k], r);
      case Drop(_) =>
    }
  }

  lemma ArriveOnce(s: Network, node: EndpointID, previous: seq<EndpointID>)
    requires s.Valid() && AllOnce(s)
    ensures AllOnce(ArriveStep(s, node, previous))
  {
    if node in s.current {
      assert Once(s.lives[s.current[node]]);
    }
  }

  lemma {:induction false} RunOnce(s: Network, actions: seq<Action>, nodes: set<EndpointID>)
    requires s.Valid() && AllSound(s, nodes) && AllOnce(s) && AllGuarded(s, actions)
    requires forall i :: 0 <= i < |actions| ==> Within(actions[i], nodes)
    ensures AllOnce(Run(s, actions))
    decreases |actions|
  {
    hide AllSound, AllOnce, Within, Step, Guarded;
    if actions != [] {
      StepSound(s, actions[0], nodes);
      StepOnce(s, actions[0], nodes);
      RunOnce(Step(s, actions[0]), actions[1..], nodes);
    }
  }

  /** Rounds in which sending to a peer succeeded, over all nodes and peers. */
  function Successes(lives: seq<Life>): nat {
    if lives == [] then 0 else lives[0].successes + Successes(lives[1..])
  }

  lemma {:induction false} SuccessesBound(lives: seq<Life>, b: nat)
    requires forall l :: 0 <= l < |lives| ==> lives[l].successes <= b
    ensures Successes(lives) <= |lives| * b
  {
    if lives != [] {
      SuccessesBound(lives[1..], b);
      assert |lives| * b == (|lives| - 1) * b + b;
    }
  }

  lemma OnceBound(l: Life, alive: bool, nodes: set<EndpointID>)
    requires Sound(l, alive, nodes) && Once(l)
    ensures l.successes == |l.reached| <= |nodes| - 1
  {
    Numbering.SubsetSize(l.reached, nodes - {l.node});
  }

  lemma FewLives(s: Network, nodes: set<EndpointID>)
    requires s.Valid() && AllSound(s, nodes)
    ensures |s.lives| <= |nodes| + s.drops
  {
    forall n | n in s.current.Keys ensures n in nodes {
      assert Sound(s.lives[s.current[n]], true, nodes);
    }
    Numbering.SubsetSize(s.current.Keys, nodes);
    assert |s.current| == |s.current.Keys|;
  }

  lemma {:induction false} ProductBound(k: nat, n: nat, b: nat)
    requires k <= n
    ensures k * b <= n * b
  {
    if k < n {
      ProductBound(k, n - 1, b);
      assert n * b == (n - 1) * b + b;
    }
  }

  /** Flooding ends: over N nodes, in every run in which forwardings that overlap at a node have no peer in common, no peer
      is reached in two rounds, so a node succeeds in sending the bundle to a peer at most N * (N - 1) times, and N - 1
      times more for each time a node drops it. */
  lemma FloodingIsBounded(actions: seq<Action>, nodes: set<EndpointID>)
    requires nodes != {} && AllWithin(actions, nodes) && AllGuarded(EMPTY, actions)
    ensures var s := Run(EMPTY, actions);
            && (forall l :: 0 <= l < |s.lives| ==> s.lives[l].successes == |s.lives[l].reached| <= |nodes| - 1)
            && Successes(s.lives) <= (|nodes| + s.drops) * (|nodes| - 1)
  {
    hide Run, Successes, Within, AllGuarded;
    RunSound(EMPTY, actions, nodes);
    RunOnce(EMPTY, actions, nodes);
    var s := Run(EMPTY, actions);
    assert |nodes| > 0;
    forall l | 0 <= l < |s.lives| ensures s.lives[l].successes == |s.lives[l].reached| <= |nodes| - 1 {
      OnceBound(s.lives[l], s.Alive(l), nodes);
    }
    FewLives(s, nodes);
    SuccessesBound(s.lives, |nodes| - 1);
    ProductBound(|s.lives|, |nodes| + s.drops, |nodes| - 1);
  }

  // ---------------------------------------------------------------- when a peer is reached twice

  lemma RunCons(s: Network, a: Action, rest: seq<Action>)
    requires s.Valid()
    ensures Step(s, a).Valid() && Run(s, [a] + rest) == Run(Step(s, a), rest)
  {
    hide Step;
    StepValid(s, a);
    assert ([a] + rest)[1..] == rest;
  }

  ghost predicate AllCounted(s: Network) {
    forall l :: 0 <= l < |s.lives| ==> Counted(s.lives[l])
  }

  ghost predicate AllWithin(actions: seq<Action>, nodes: set<EndpointID>) {
    forall i :: 0 <= i < |actions| ==> Within(actions[i], nodes)
  }

  /** However the transmissions turn out and whatever else happens, no peer is reached in two rounds, unless a later
      forwarding begins that should not. */
  ghost predicate NeverRepeats(s: Network, nodes: set<EndpointID>)
    requires s.Valid()
  {
    forall actions :: AllWithin(actions, nodes) && AllGuarded(s, actions) ==> AllCounted(Run(s, actions))
  }

  lemma OnceNeverRepeats(s: Network, nodes: set<EndpointID>)
    requires s.Valid() && AllSound(s, nodes) && AllOnce(s)
    ensures NeverRepeats(s, nodes)
  {
    hide Run, AllSound, AllGuarded, Within, Network.Valid;
    forall actions | AllWithin(actions, nodes) && AllGuarded(s, actions) ensures AllCounted(Run(s, actions)) {
      RunOnce(s, actions, nodes);
      OnceIsCounted(Run(s, actions));
    }
  }

  lemma OnceIsCounted(s: Network)
    requires AllOnce(s)
    ensures AllCounted(s)
  {
    hide OwnPeers, Disjoint;
    assert forall l :: 0 <= l < |s.lives| ==> Once(s.lives[l]);
  }

  /** Two rounds in which sending to the same new peer succeeds, one after the other. */
  lemma BothReach(l: Life, r: nat, i: nat, q: nat, j: nat)
    requires Counted(l) && r < |l.rounds| && q < |l.rounds| && r != q
    requires i < |l.rounds[r].selected| && j < |l.rounds[q].selected| && l.rounds[r].selected[i].peer == l.rounds[q].selected[j].peer
    requires l.rounds[r].done <= l.reached && l.rounds[q].done <= l.reached && l.rounds[q].selected[j].peer !in l.reached
    ensures var peer := l.rounds[q].selected[j].peer;
            var t := Reaching(l, true, r, peer);
            var u := Reaching(t, true, q, peer);
            t.rounds[q].selected == l.rounds[q].selected && u.successes == |u.reached| + 1
  {
    var peer := l.rounds[q].selected[j].peer;
    assert l.reached + {peer} + {peer} == l.reached + {peer};
  }

  /** After a forwarding has begun that should not have, two transmissions succeed, and a peer is reached twice. */
  lemma Repeats(s: Network, node: EndpointID, peers: seq<Sender>, nodes: set<EndpointID>) returns (a: Action, b: Action)
    requires s.Valid() && AllSound(s, nodes) && AllOnce(s) && node in s.current && Within(Begin(node, peers), nodes)
    requires !Guarded(s, Begin(node, peers))
    ensures a.Succeed? && b.Succeed?
    ensures BeginStep(s, node, peers).Valid()
    ensures var t := Run(BeginStep(s, node, peers), [a, b]);
            s.current[node] < |t.lives| && t.lives[s.current[node]].successes == |t.lives[s.current[node]].reached| + 1
  {
    hide SelectPeers, Elsewhere, Disjoint;
    var k := s.current[node];
    var l := s.lives[k];
    assert Sound(l, true, nodes) && Once(l);
    SelectedIsNew(l, peers, nodes);
    var selected := SelectPeers(l, peers);
    var r, i, j :| 0 <= r < |l.rounds| && 0 <= i < |l.rounds[r].selected| && 0 <= j < |selected|
                   && l.rounds[r].selected[i].peer == selected[j].peer;
    assert OwnPeers(l.reached, l.rounds[r]);
    var q := |l.rounds|;
    a, b := Succeed(k, r, i), Succeed(k, q, j);
    StepValid(s, Begin(node, peers));
    BothReach(l.(rounds := l.rounds + [Round(selected, {})]), r, i, q, j);
    TwoSucceed(BeginStep(s, node, peers), k, r, i, q, j);
  }

  lemma TwoSucceed(s: Network, k: nat, r: nat, i: nat, q: nat, j: nat)
    requires s.Valid() && k < |s.lives| && s.Alive(k)
    requires var l := s.lives[k];
             && r < |l.rounds| && q < |l.rounds| && r != q && i < |l.rounds[r].selected| && j < |l.rounds[q].selected|
    ensures var l := s.lives[k];
            var t := Reaching(l, true, r, l.rounds[r].selected[i].peer);
            Run(s, [Succeed(k, r, i), Succeed(k, q, j)]).lives[k] == Reaching(t, true, q, l.rounds[q].selected[j].peer)
  {
    hide Run;
    var a, b := Succeed(k, r, i), Succeed(k, q, j);
    assert [a] + [b] == [a, b] && [b] + [] == [b];
    RunCons(s, a, [b]);
    var t := Step(s, a);
    RunCons(t, b, []);
    RunNothing(Step(t, b));
  }

  /** A forwarding that begins in any run whose earlier ones met the condition: no peer is ever reached in two rounds
      exactly if it selects no peer that another forwarding of the bundle going on at that node has selected. */
  lemma RepeatsExactly(actions: seq<Action>, node: EndpointID, peers: seq<Sender>, nodes: set<EndpointID>)
    requires AllWithin(actions, nodes) && AllGuarded(EMPTY, actions) && Within(Begin(node, peers), nodes)
    requires node in Run(EMPTY, actions).current
    ensures var s := Run(EMPTY, actions);
            var l := s.lives[s.current[node]];
            && BeginStep(s, node, peers).Valid()
            && (NeverRepeats(BeginStep(s, node, peers), nodes) <==> Apart(l, SelectPeers(l, peers)))
  {
    hide Run, BeginStep, SelectPeers, Apart, Within;
    RunSound(EMPTY, actions, nodes);
    RunOnce(EMPTY, actions, nodes);
    BeginExactly(Run(EMPTY, actions), node, peers, nodes);
  }

  lemma BeginExactly(s: Network, node: EndpointID, peers: seq<Sender>, nodes: set<EndpointID>)
    requires s.Valid() && AllSound(s, nodes) && AllOnce(s) && node in s.current && Within(Begin(node, peers), nodes)
    ensures BeginStep(s, node, peers).Valid()
    ensures NeverRepeats(BeginStep(s, node, peers), nodes) <==> Guarded(s, Begin(node, peers))
  {
    hide AllSound, AllOnce, Run, BeginStep, Within, AllCounted, AllGuarded, Guarded, Network.Valid;
    var a := Begin(node, peers);
    var t := BeginStep(s, node, peers);
    StepSound(s, a, nodes);
    assert Step(s, a) == t;
    if Guarded(s, a) {
      StepOnce(s, a, nodes);
      OnceNeverRepeats(t, nodes);
    } else {
      var b, c := Repeats(s, node, peers, nodes);
      SucceedingIsAllowed(t, b, c, nodes);
      NotCounted(Run(t, [b, c]), s.current[node]);
    }
  }

  lemma SucceedingIsAllowed(s: Network, a: Action, b: Action, nodes: set<EndpointID>)
    requires s.Valid() && a.Succeed? && b.Succeed?
    ensures AllWithin([a, b], nodes) && AllGuarded(s, [a, b])
  {
    hide Step;
    StepValid(s, a);
    StepValid(Step(s, a), b);
    assert [a, b][1..] == [b] && [b][1..] == [];
    assert AllGuarded(Step(s, a), [b]);
  }

  lemma NotCounted(s: Network, k: nat)
    requires k < |s.lives| && s.lives[k].successes == |s.lives[k].reached| + 1
    ensures !AllCounted(s)
  {
    assert !Counted(s.lives[k]);
  }

  /** The network in which one node has the bundle and begins forwardings. */
  function Alone(node: EndpointID, rounds: seq<Round>): Network {
    Network([Life(node, [node], {}, 0, rounds)], map[node := 0], 0)
  }

  lemma AloneBegins(node: EndpointID, cs: Sender, rounds: seq<Round>)
    requires cs.peer != node
    ensures Step(Alone(node, rounds), Begin(node, [cs])) == Alone(node, rounds + [Round([cs], {})])
  {
    assert [cs][..0] == [] && FilterPeers([node], []) == [];
    var l := Life(node, [node], {}, 0, rounds);
    assert SelectPeers(l, [cs]) == [cs];
    assert [l][0 := l.(rounds := rounds + [Round([cs], {})])] == Alone(node, rounds + [Round([cs], {})]).lives;
  }

  lemma AloneArrives(node: EndpointID)
    ensures Step(EMPTY, Arrive(node, [])) == Alone(node, [])
  {
    assert [node] + [] == [node] && map[][node := 0] == map[node := 0];
  }

  lemma AloneSucceeds(node: EndpointID, cs: Sender)
    requires cs.peer != node
    ensures var r := Round([cs], {});
            var t := Step(Alone(node, [r, r]), Succeed(0, 0, 0));
            var u := (StepValid(Alone(node, [r, r]), Succeed(0, 0, 0)); Step(t, Succeed(0, 1, 0)));
            |u.lives| == 1 && u.lives[0].reached == {cs.peer} && u.lives[0].successes == 2
  {
    var r := Round([cs], {});
    StepValid(Alone(node, [r, r]), Succeed(0, 0, 0));
    var t := Step(Alone(node, [r, r]), Succeed(0, 0, 0));
    assert t.lives[0].rounds == [Round([cs], {cs.peer}), r] && t.lives[0].successes == 1;
  }

  /** The smallest case: two forwardings that overlap both reach the same peer. */
  lemma OverlapRepeats(node: EndpointID, cs: Sender)
    requires cs.peer != node
    ensures var s := Run(EMPTY, [Arrive(node, []), Begin(node, [cs]), Begin(node, [cs]), Succeed(0, 0, 0), Succeed(0, 1, 0)]);
            |s.lives| == 1 && s.lives[0].reached == {cs.peer} && s.lives[0].successes == 2
  {
    hide Step, Run, Network.Valid;
    var a, b, c, d := Arrive(node, []), Begin(node, [cs]), Succeed(0, 0, 0), Succeed(0, 1, 0);
    var r := Round([cs], {});
    AloneArrives(node);
    AloneBegins(node, cs, []);
    AloneBegins(node, cs, [r]);
    assert [] + [r] == [r] && [r] + [r] == [r, r];
    AloneSucceeds(node, cs);
    hide Alone;
    assert [a] + [b, b, c, d] == [a, b, b, c, d] && [b] + [b, c, d] == [b, b, c, d] && [b] + [c, d] == [b, c, d];
    assert [c] + [d] == [c, d] && [d] + [] == [d];
    EmptyIsValid();
    RunCons(EMPTY, a, [b, b, c, d]);
    RunCons(Alone(node, []), b, [b, c, d]);
    RunCons(Alone(node, [r]), b, [c, d]);
    RunCons(Alone(node, [r, r]), c, [d]);
    var t := Step(Alone(node, [r, r]), c);
    RunCons(t, d, []);
    RunNothing(Step(t, d));
  }

  lemma EmptyIsValid()
    ensures EMPTY.Valid()
  {
  }

  lemma RunNothing(s: Network)
    requires s.Valid()
    ensures Run(s, []) == s
  {
  }
}
