/** Spray and wait in a whole network, for one bundle: nodes forward, messages arrive or are lost, nodes drop the bundle. */
module SprayNetwork {
  import opened Bytes
  import opened Endpoint
  import opened Blocks
  import opened Numbering
  import StoreMachine
  import opened Forwarding
  import opened Routing

  /** A forwarding that has read the saved copies and found its candidates, and has not written the copies back yet. */
  datatype Round = Round(read: uint64, candidates: seq<Sender>)

  /** A node's share: the copies saved, if any were, the nodes it knows to have the bundle, the extension blocks it has on
      disk, and the forwardings that are going on. */
  datatype Carrier = Carrier(saved: Option<uint64>, known: seq<EndpointID>, blocks: seq<CanonicalBlock>, rounds: seq<Round>)

  datatype Message = Message(to: EndpointID, blocks: seq<CanonicalBlock>)

  /** A forwarding whose node has dropped the bundle meanwhile. */
  datatype Orphan = Orphan(node: EndpointID, blocks: seq<CanonicalBlock>, round: Round)

  /** `arrivals` are stored bundles that the algorithm was not told about yet. `carried` and `forwards` record which nodes
      ever had the bundle and how many peers were selected for it. */
  datatype Network = Network(
    held: map<EndpointID, Carrier>,
    orphans: seq<Orphan>,
    arrivals: seq<Message>,
    flight: seq<Message>,
    carried: set<EndpointID>,
    forwards: nat)

  /** A forwarding reads and writes the copies in two steps, and a received bundle is stored and announced in two.
      `default` is the number of copies a node assumes if none were saved. */
  datatype Action =
    | Begin(node: EndpointID, peers: seq<Sender>, default: uint64)
    | Finish(node: EndpointID, i: nat, loads: bool, pick: nat)
    | FinishOrphan(k: nat, loads: bool, pick: nat)
    | Store(k: nat)
    | Notify(k: nat)
    | Lose(k: nat)
    | Learn(node: EndpointID, holder: EndpointID)
    | Drop(node: EndpointID)

  /** A new bundle at its source. */
  function New(copies: uint64, origin: EndpointID, blocks: seq<CanonicalBlock>): Network {
    Network(map[origin := Carrier(Some(copies), [origin], blocks, [])], [], [], [], {origin}, 0)
  }

  function Messages(peers: seq<Sender>, blocks: seq<CanonicalBlock>): (ms: seq<Message>)
    ensures |ms| == |peers| && forall i :: 0 <= i < |ms| ==> ms[i] == Message(peers[i].peer, blocks)
  {
    seq(|peers|, i requires 0 <= i < |peers| => Message(peers[i].peer, blocks))
  }

  function Selected(binary: bool, f: Round, loads: bool, pick: nat): Selection {
    Select(binary, f.read, f.candidates, loads, pick)
  }

  /** The extension blocks that a node sends. */
  function SentBlocks(blocks: seq<CanonicalBlock>, s: Selection, node: EndpointID): seq<CanonicalBlock>
    requires |blocks| < MAX_BLOCKS
  {
    if s.sent.Some? then Sprayed(blocks, s.sent.value, node) else WithPrevious(blocks, node)
  }

  /** What is sent: in basic mode nothing if the bundle cannot be read from disk, though the copies are paid then. */
  function Outgoing(blocks: seq<CanonicalBlock>, s: Selection, loads: bool, node: EndpointID): (ms: seq<Message>)
    requires |blocks| < MAX_BLOCKS
    ensures |ms| <= |s.peers|
  {
    if loads then Messages(s.peers, SentBlocks(blocks, s, node)) else []
  }

  function Without<T>(ts: seq<T>, k: nat): (r: seq<T>)
    requires k < |ts|
    ensures |r| == |ts| - 1
    ensures forall t :: t in r ==> t in ts
  {
    ts[..k] + ts[k + 1..]
  }

  /** Without saved copies, the default is assumed. */
  function Begun(c: Carrier, peers: seq<Sender>, default: uint64): Round {
    Round(if c.saved.Some? then c.saved.value else default, FilterPeers(c.known, peers))
  }

  /** What is assumed is saved. */
  function Started(c: Carrier, peers: seq<Sender>, default: uint64): Carrier {
    var f := Begun(c, peers, default);
    c.(saved := Some(f.read), rounds := c.rounds + [f])
  }

  /** Copies are written only if there are peers to send to. */
  function Ended(binary: bool, c: Carrier, i: nat, loads: bool, pick: nat): Carrier
    requires i < |c.rounds|
  {
    var s := Selected(binary, c.rounds[i], loads, pick);
    c.(saved := if s.peers == [] then c.saved else Some(s.kept), rounds := Without(c.rounds, i))
  }

  function FinishStep(binary: bool, s: Network, a: Action): Network
    requires a.Finish? && a.node in s.held
    requires a.i < |s.held[a.node].rounds| && |s.held[a.node].blocks| < MAX_BLOCKS
  {
    var c := s.held[a.node];
    var t := Selected(binary, c.rounds[a.i], a.loads, a.pick);
    s.(held := s.held[a.node := Ended(binary, c, a.i, a.loads, a.pick)],
       flight := s.flight + Outgoing(c.blocks, t, a.loads, a.node),
       forwards := s.forwards + |t.peers|)
  }

  /** The copies are written to a descriptor that nobody reads any more. */
  function OrphanStep(binary: bool, s: Network, a: Action): Network
    requires a.FinishOrphan? && a.k < |s.orphans| && |s.orphans[a.k].blocks| < MAX_BLOCKS
  {
    var o := s.orphans[a.k];
    var t := Selected(binary, o.round, a.loads, a.pick);
    s.(orphans := Without(s.orphans, a.k),
       flight := s.flight + Outgoing(o.blocks, t, a.loads, o.node),
       forwards := s.forwards + |t.peers|)
  }

  /** A node that has the bundle already keeps what it has on disk. */
  function StoreStep(s: Network, k: nat): Network
    requires k < |s.flight|
  {
    var m := s.flight[k];
    var previous := StoreMachine.PreviousNodes(m.blocks);
    var c := if m.to in s.held then s.held[m.to].(known := s.held[m.to].known + previous)
             else Carrier(None, [m.to] + previous, m.blocks, []);
    s.(flight := Without(s.flight, k), arrivals := s.arrivals + [m], held := s.held[m.to := c], carried := s.carried + {m.to})
  }

  /** The copies received replace those the node had. */
  function NotifyStep(s: Network, k: nat): Network
    requires k < |s.arrivals|
  {
    var m := s.arrivals[k];
    var r := ReceivedCopies(m.blocks);
    var t := s.(arrivals := Without(s.arrivals, k));
    if r.Panic? || m.to !in s.held then t else t.(held := t.held[m.to := t.held[m.to].(saved := Some(r.n))])
  }

  function Orphaned(node: EndpointID, c: Carrier): (os: seq<Orphan>)
    ensures |os| == |c.rounds|
    ensures forall i :: 0 <= i < |os| ==> os[i] == Orphan(node, c.blocks, c.rounds[i])
  {
    seq(|c.rounds|, i requires 0 <= i < |c.rounds| => Orphan(node, c.blocks, c.rounds[i]))
  }

  function Elsewhere(ms: seq<Message>, node: EndpointID): (r: seq<Message>)
    ensures forall m :: m in r ==> m in ms
  {
    if ms == [] then [] else (if ms[0].to == node then [] else [ms[0]]) + Elsewhere(ms[1..], node)
  }

  /** A bundle that comes again later gets a new descriptor, so these rounds and announcements go on without effect on
      that one. */
  function DropStep(s: Network, node: EndpointID): Network
    requires node in s.held
  {
    s.(held := s.held - {node}, orphans := s.orphans + Orphaned(node, s.held[node]), arrivals := Elsewhere(s.arrivals, node))
  }

  predicate Enabled(s: Network, a: Action) {
    match a
    case Begin(node, _, _) => node in s.held
    case Finish(node, i, _, _) => node in s.held && i < |s.held[node].rounds| && |s.held[node].blocks| < MAX_BLOCKS
    case FinishOrphan(k, _, _) => k < |s.orphans| && |s.orphans[k].blocks| < MAX_BLOCKS
    case Store(k) => k < |s.flight|
    case Notify(k) => k < |s.arrivals|
    case Lose(k) => k < |s.flight|
    case Learn(node, _) => node in s.held
    case Drop(node) => node in s.held
  }

  function Step(binary: bool, s: Network, a: Action): Network {
    if !Enabled(s, a) then s
    else
      match a
      case Begin(node, peers, default) => s.(held := s.held[node := Started(s.held[node], peers, default)])
      case Finish(_, _, _, _) => FinishStep(binary, s, a)
      case FinishOrphan(_, _, _) => OrphanStep(binary, s, a)
      case Store(k) => StoreStep(s, k)
      case Notify(k) => NotifyStep(s, k)
      case Lose(k) => s.(flight := Without(s.flight, k))
      case Learn(node, holder) => s.(held := s.held[node := s.held[node].(known := s.held[node].known + [holder])])
      case Drop(node) => DropStep(s, node)
  }

  function Run(binary: bool, s: Network, actions: seq<Action>): Network
    decreases |actions|
  {
    if actions == [] then s else Run(binary, Step(binary, s, actions[0]), actions[1..])
  }

  /** A forwarding that has copies to give away and somebody to give them to, of a bundle that has room for the blocks. */
  predicate Live(binary: bool, f: Round, blocks: seq<CanonicalBlock>) {
    f.candidates != [] && f.read > (if binary then 1 else 0) && |blocks| < MAX_BLOCKS
  }

  predicate NoneLive(binary: bool, c: Carrier) {
    forall f :: f in c.rounds ==> !Live(binary, f, c.blocks)
  }

  /** A forwarding begins only when copies were saved, or it would assume none in basic mode, and not when it and another
      one that is going on at that node are both live. */
  predicate Guarded(binary: bool, s: Network, a: Action) {
    a.Begin? && a.node in s.held ==>
      var c := s.held[a.node];
      && (c.saved.Some? || (!binary && a.default == 0))
      && (NoneLive(binary, c) || !Live(binary, Begun(c, a.peers, a.default), c.blocks))
  }

  predicate AllGuarded(binary: bool, s: Network, actions: seq<Action>)
    decreases |actions|
  {
    actions != [] ==> Guarded(binary, s, actions[0]) && AllGuarded(binary, Step(binary, s, actions[0]), actions[1..])
  }

  // ---------------------------------------------------------------- sums

  function Sum<T>(ts: seq<T>, weight: T -> nat): nat {
    if ts == [] then 0 else weight(ts[0]) + Sum(ts[1..], weight)
  }

  lemma {:induction false} SumJoined<T>(a: seq<T>, b: seq<T>, weight: T -> nat)
    ensures Sum(a + b, weight) == Sum(a, weight) + Sum(b, weight)
  {
    if a == [] {
      assert a + b == b;
    } else {
      assert (a + b)[1..] == a[1..] + b;
      SumJoined(a[1..], b, weight);
    }
  }

  lemma SumOne<T>(t: T, weight: T -> nat)
    ensures Sum([t], weight) == weight(t)
  {
    assert [t][1..] == [];
  }

  lemma SumWithout<T>(ts: seq<T>, k: nat, weight: T -> nat)
    requires k < |ts|
    ensures Sum(ts, weight) == weight(ts[k]) + Sum(Without(ts, k), weight)
  {
    assert ts == ts[..k] + ts[k..];
    SumJoined(ts[..k], ts[k..], weight);
    SumJoined(ts[..k], ts[k + 1..], weight);
  }

  lemma {:induction false} SumElsewhere(ms: seq<Message>, node: EndpointID, weight: Message -> nat)
    ensures Sum(Elsewhere(ms, node), weight) <= Sum(ms, weight)
  {
    if ms != [] {
      SumElsewhere(ms[1..], node, weight);
      if ms[0].to != node {
        var r := Elsewhere(ms, node);
        assert r == [ms[0]] + Elsewhere(ms[1..], node) && r[1..] == Elsewhere(ms[1..], node);
      } else {
        assert Elsewhere(ms, node) == Elsewhere(ms[1..], node);
      }
    }
  }

  ghost function HeldSum(m: map<EndpointID, Carrier>, weight: Carrier -> nat): nat
    decreases |m|
  {
    if m == map[] then 0
    else
      var k := AnyKey(m);
      weight(m[k]) + HeldSum(m - {k}, weight)
  }

  lemma {:induction false} HeldWithout(m: map<EndpointID, Carrier>, k: EndpointID, weight: Carrier -> nat)
    requires k in m
    ensures HeldSum(m, weight) == weight(m[k]) + HeldSum(m - {k}, weight)
    decreases |m|
  {
    var j := AnyKey(m);
    if j != k {
      HeldWithout(m - {j}, k, weight);
      HeldWithout(m - {k}, j, weight);
      assert m - {j} - {k} == m - {k} - {j};
    }
  }

  lemma HeldUpdate(m: map<EndpointID, Carrier>, k: EndpointID, c: Carrier, weight: Carrier -> nat)
    ensures HeldSum(m[k := c], weight) + (if k in m then weight(m[k]) else 0) == HeldSum(m, weight) + weight(c)
  {
    hide HeldSum;
    HeldWithout(m[k := c], k, weight);
    assert m[k := c] - {k} == m - {k};
    if k in m {
      HeldWithout(m, k, weight);
    } else {
      assert m - {k} == m;
    }
  }

  // ---------------------------------------------------------------- what copies are still good for

  function Above(n: nat, base: nat): nat {
    if n <= base then 0 else n - base
  }

  function Saved(c: Carrier): nat {
    if c.saved.Some? then c.saved.value else 0
  }

  /** The copies that forwardings may still give away. */
  function OfRound(binary: bool, blocks: seq<CanonicalBlock>): Round -> nat {
    (f: Round) => if Live(binary, f, blocks) then f.read else 0
  }

  function Claimed(binary: bool, c: Carrier): nat {
    Sum(c.rounds, OfRound(binary, c.blocks))
  }

  /** A node is good for the copies it saved, or for those that a live forwarding has read if they are more. */
  function Worth(binary: bool, c: Carrier): nat {
    if Saved(c) >= Claimed(binary, c) then Saved(c) else Claimed(binary, c)
  }

  ghost predicate OneLive(binary: bool, c: Carrier) {
    forall i, j :: 0 <= i < j < |c.rounds| ==> !Live(binary, c.rounds[i], c.blocks) || !Live(binary, c.rounds[j], c.blocks)
  }

  lemma {:induction false} NothingClaimed(binary: bool, fs: seq<Round>, blocks: seq<CanonicalBlock>)
    requires forall f :: f in fs ==> !Live(binary, f, blocks)
    ensures Sum(fs, OfRound(binary, blocks)) == 0
  {
    hide Live;
    if fs != [] {
      assert fs[0] in fs && forall f :: f in fs[1..] ==> f in fs;
      NothingClaimed(binary, fs[1..], blocks);
    }
  }

  /** Of the rounds of a carrier one is taken out: if it is live, no other one is. */
  lemma ClaimedWithout(binary: bool, c: Carrier, i: nat)
    requires OneLive(binary, c) && i < |c.rounds|
    ensures var d := c.(rounds := Without(c.rounds, i));
            && OneLive(binary, d) && Claimed(binary, d) <= Claimed(binary, c)
            && (Live(binary, c.rounds[i], c.blocks) ==> Claimed(binary, c) == c.rounds[i].read && Claimed(binary, d) == 0)
  {
    hide Live;
    SumWithout(c.rounds, i, OfRound(binary, c.blocks));
    var d := c.(rounds := Without(c.rounds, i));
    assert forall k :: 0 <= k < |d.rounds| ==> d.rounds[k] == c.rounds[if k < i then k else k + 1];
    if Live(binary, c.rounds[i], c.blocks) {
      NothingClaimed(binary, d.rounds, c.blocks);
    }
  }

  lemma ClaimedBegun(binary: bool, c: Carrier, peers: seq<Sender>, default: uint64)
    requires OneLive(binary, c) && (NoneLive(binary, c) || !Live(binary, Begun(c, peers, default), c.blocks))
    ensures OneLive(binary, Started(c, peers, default))
    ensures Claimed(binary, Started(c, peers, default)) <= Worth(binary, c) || c.saved.None?
    ensures c.saved.None? && default == 0 ==> Claimed(binary, Started(c, peers, default)) == Claimed(binary, c)
  {
    hide Live, FilterPeers;
    var f := Begun(c, peers, default);
    SumJoined(c.rounds, [f], OfRound(binary, c.blocks));
    SumOne(f, OfRound(binary, c.blocks));
    if NoneLive(binary, c) {
      NothingClaimed(binary, c.rounds, c.blocks);
    }
    assert forall k :: 0 <= k < |c.rounds| ==> c.rounds[k] in c.rounds;
  }

  /** A forwarding that selects a peer was live. */
  lemma SelectsIfLive(binary: bool, f: Round, blocks: seq<CanonicalBlock>, loads: bool, pick: nat)
    requires |blocks| < MAX_BLOCKS
    ensures Selected(binary, f, loads, pick).peers != [] ==> Live(binary, f, blocks)
    ensures loads ==> (Selected(binary, f, loads, pick).peers != [] <==> Live(binary, f, blocks))
  {
  }

  function InMessage(m: Message): nat {
    var r := ReceivedCopies(m.blocks);
    if r.Copies? then r.n else 0
  }

  function OfCarrier(binary: bool, base: nat): Carrier -> nat {
    (c: Carrier) => Above(Worth(binary, c), base)
  }

  function OfMessage(base: nat): Message -> nat {
    (m: Message) => Above(InMessage(m), base)
  }

  function OfOrphan(binary: bool, base: nat): Orphan -> nat {
    (o: Orphan) => if Live(binary, o.round, o.blocks) then Above(o.round.read, base) else 0
  }

  /** With base 0, the copies at all nodes and under way; with base 1, one less for each node and message: the forwards
      they still allow. */
  ghost function Total(binary: bool, s: Network, base: nat): nat {
    HeldSum(s.held, OfCarrier(binary, base)) + Sum(s.orphans, OfOrphan(binary, base))
    + Sum(s.arrivals, OfMessage(base)) + Sum(s.flight, OfMessage(base))
  }

  /** A step from s to t makes up no copy and spends one for each forward. */
  ghost predicate Paid(binary: bool, s: Network, t: Network) {
    Total(binary, t, 0) <= Total(binary, s, 0) && t.forwards + Total(binary, t, 1) <= s.forwards + Total(binary, s, 1)
  }

  // ---------------------------------------------------------------- steps without messages

  lemma BeginTotal(binary: bool, s: Network, node: EndpointID, peers: seq<Sender>, default: uint64, base: nat)
    requires node in s.held && OneLive(binary, s.held[node]) && (s.held[node].saved.Some? || default == 0)
    requires NoneLive(binary, s.held[node]) || !Live(binary, Begun(s.held[node], peers, default), s.held[node].blocks)
    ensures Total(binary, s.(held := s.held[node := Started(s.held[node], peers, default)]), base) <= Total(binary, s, base)
  {
    hide HeldSum, FilterPeers, Claimed, Live;
    var c := Started(s.held[node], peers, default);
    ClaimedBegun(binary, s.held[node], peers, default);
    HeldUpdate(s.held, node, c, OfCarrier(binary, base));
  }

  lemma LearnTotal(binary: bool, s: Network, node: EndpointID, known: seq<EndpointID>, base: nat)
    requires node in s.held
    ensures Total(binary, s.(held := s.held[node := s.held[node].(known := known)]), base) == Total(binary, s, base)
  {
    hide HeldSum;
    HeldUpdate(s.held, node, s.held[node].(known := known), OfCarrier(binary, base));
  }

  lemma LoseTotal(binary: bool, s: Network, k: nat, base: nat)
    requires k < |s.flight|
    ensures Total(binary, s.(flight := Without(s.flight, k)), base) <= Total(binary, s, base)
  {
    hide HeldSum, OfMessage, Without;
    SumWithout(s.flight, k, OfMessage(base));
  }

  lemma StoreTotal(binary: bool, s: Network, k: nat, base: nat)
    requires k < |s.flight|
    ensures Total(binary, StoreStep(s, k), base) == Total(binary, s, base)
  {
    hide HeldSum, OfMessage, Without, StoreMachine.PreviousNodes;
    var m := s.flight[k];
    SumWithout(s.flight, k, OfMessage(base));
    SumJoined(s.arrivals, [m], OfMessage(base));
    SumOne(m, OfMessage(base));
    HeldUpdate(s.held, m.to, StoreStep(s, k).held[m.to], OfCarrier(binary, base));
  }

  lemma NotifyTotal(binary: bool, s: Network, k: nat, base: nat)
    requires k < |s.arrivals|
    ensures Total(binary, NotifyStep(s, k), base) <= Total(binary, s, base)
  {
    hide HeldSum, Without, ReceivedCopies;
    var m := s.arrivals[k];
    SumWithout(s.arrivals, k, OfMessage(base));
    if ReceivedCopies(m.blocks).Copies? && m.to in s.held {
      HeldUpdate(s.held, m.to, NotifyStep(s, k).held[m.to], OfCarrier(binary, base));
    }
  }

  lemma {:induction false} OrphanedTotal(binary: bool, node: EndpointID, c: Carrier, base: nat)
    ensures Sum(Orphaned(node, c), OfOrphan(binary, base)) <= Above(Claimed(binary, c), base)
    decreases |c.rounds|
  {
    hide Live;
    if c.rounds != [] {
      var d := c.(rounds := c.rounds[1..]);
      assert Orphaned(node, c)[1..] == Orphaned(node, d);
      OrphanedTotal(binary, node, d, base);
    }
  }

  lemma DropTotal(binary: bool, s: Network, node: EndpointID, base: nat)
    requires node in s.held
    ensures Total(binary, DropStep(s, node), base) <= Total(binary, s, base)
  {
    hide HeldSum, OfMessage, OfOrphan, Orphaned, Claimed;
    var c := s.held[node];
    HeldWithout(s.held, node, OfCarrier(binary, base));
    SumJoined(s.orphans, Orphaned(node, c), OfOrphan(binary, base));
    OrphanedTotal(binary, node, c, base);
    SumElsewhere(s.arrivals, node, OfMessage(base));
  }

  // ---------------------------------------------------------------- finishing

  /** A finished forwarding replaces the worth of its node, and its messages come in addition. */
  lemma FinishTotal(binary: bool, s: Network, a: Action, carrier: Carrier -> nat, message: Message -> nat)
    requires a.Finish? && Enabled(s, a)
    ensures var c := s.held[a.node];
            var d := Ended(binary, c, a.i, a.loads, a.pick);
            var ms := Outgoing(c.blocks, Selected(binary, c.rounds[a.i], a.loads, a.pick), a.loads, a.node);
            && HeldSum(FinishStep(binary, s, a).held, carrier) + carrier(c) == HeldSum(s.held, carrier) + carrier(d)
            && Sum(FinishStep(binary, s, a).flight, message) == Sum(s.flight, message) + Sum(ms, message)
  {
    hide HeldSum, Select, Outgoing, Ended;
    var c := s.held[a.node];
    var t := Selected(binary, c.rounds[a.i], a.loads, a.pick);
    SumJoined(s.flight, Outgoing(c.blocks, t, a.loads, a.node), message);
    HeldUpdate(s.held, a.node, Ended(binary, c, a.i, a.loads, a.pick), carrier);
  }

  lemma OrphanTotal(binary: bool, s: Network, a: Action, base: nat)
    requires a.FinishOrphan? && Enabled(s, a)
    ensures var o := s.orphans[a.k];
            var ms := Outgoing(o.blocks, Selected(binary, o.round, a.loads, a.pick), a.loads, o.node);
            && Sum(OrphanStep(binary, s, a).flight, OfMessage(base)) == Sum(s.flight, OfMessage(base)) + Sum(ms, OfMessage(base))
            && Total(binary, OrphanStep(binary, s, a), base) + OfOrphan(binary, base)(o)
               == Total(binary, s, base) + Sum(ms, OfMessage(base))
  {
    hide HeldSum, Select, Outgoing, OfMessage, Without;
    var o := s.orphans[a.k];
    var t := Selected(binary, o.round, a.loads, a.pick);
    SumJoined(s.flight, Outgoing(o.blocks, t, a.loads, o.node), OfMessage(base));
    SumWithout(s.orphans, a.k, OfOrphan(binary, base));
  }

  /** What a finished forwarding adds to the totals is at most what it has read. */
  ghost predicate Covered(f: Round, t: Selection, ms: seq<Message>) {
    && Above(t.kept, 0) + Sum(ms, OfMessage(0)) <= Above(f.read, 0)
    && |t.peers| + Above(t.kept, 1) + Sum(ms, OfMessage(1)) <= Above(f.read, 1)
  }

  lemma FinishPaid(binary: bool, s: Network, a: Action)
    requires a.Finish? && Enabled(s, a) && OneLive(binary, s.held[a.node])
    requires var c := s.held[a.node];
             var t := Selected(binary, c.rounds[a.i], a.loads, a.pick);
             var ms := Outgoing(c.blocks, t, a.loads, a.node);
             if t.peers == [] then ms == [] else Covered(c.rounds[a.i], t, ms)
    ensures Paid(binary, s, FinishStep(binary, s, a))
  {
    hide HeldSum, Select, Outgoing, OfMessage, OfOrphan, Claimed, Live, OneLive;
    var c := s.held[a.node];
    var d := Ended(binary, c, a.i, a.loads, a.pick);
    var t := Selected(binary, c.rounds[a.i], a.loads, a.pick);
    var ms := Outgoing(c.blocks, t, a.loads, a.node);
    ClaimedWithout(binary, c, a.i);
    assert Claimed(binary, d) == Claimed(binary, c.(rounds := Without(c.rounds, a.i))) by { SameClaim(binary, d, c, a.i); }
    SelectsIfLive(binary, c.rounds[a.i], c.blocks, a.loads, a.pick);
    FinishTotal(binary, s, a, OfCarrier(binary, 0), OfMessage(0));
    FinishTotal(binary, s, a, OfCarrier(binary, 1), OfMessage(1));
    assert t.peers == [] ==> Sum(ms, OfMessage(0)) == 0 && Sum(ms, OfMessage(1)) == 0;
  }

  lemma SameClaim(binary: bool, d: Carrier, c: Carrier, i: nat)
    requires i < |c.rounds| && d.rounds == Without(c.rounds, i) && d.blocks == c.blocks
    ensures Claimed(binary, d) == Claimed(binary, c.(rounds := Without(c.rounds, i)))
  {
  }

  lemma OrphanPaid(binary: bool, s: Network, a: Action)
    requires a.FinishOrphan? && Enabled(s, a)
    requires var o := s.orphans[a.k];
             var t := Selected(binary, o.round, a.loads, a.pick);
             var ms := Outgoing(o.blocks, t, a.loads, o.node);
             if t.peers == [] then ms == [] else Covered(o.round, t, ms)
    ensures Paid(binary, s, OrphanStep(binary, s, a))
  {
    hide Select, Outgoing, OfMessage, Without, Total, Live;
    var o := s.orphans[a.k];
    var ms := Outgoing(o.blocks, Selected(binary, o.round, a.loads, a.pick), a.loads, o.node);
    SelectsIfLive(binary, o.round, o.blocks, a.loads, a.pick);
    OrphanTotal(binary, s, a, 0);
    OrphanTotal(binary, s, a, 1);
    assert ms == [] ==> Sum(ms, OfMessage(0)) == 0 && Sum(ms, OfMessage(1)) == 0;
  }

  // ---------------------------------------------------------------- binary mode

  /** Blocks whose spray block can be replaced, and will be understood by the receiver. */
  ghost predicate Replaceable(blocks: seq<CanonicalBlock>) {
    DistinctNumbers(blocks) && |OfType(blocks, TYPE_BINARY_SPRAY)| <= 1
  }

  ghost predicate GoodMessage(m: Message) {
    Replaceable(m.blocks) && ReceivedCopies(m.blocks).Copies? && InMessage(m) >= 1
  }

  ghost predicate GoodCarrier(c: Carrier) {
    && Replaceable(c.blocks) && OneLive(true, c) && (c.saved.Some? ==> c.saved.value >= 1)
    && forall f :: f in c.rounds ==> c.saved.Some? && f.read >= 1
  }

  ghost predicate GoodOrphan(o: Orphan) {
    Replaceable(o.blocks) && o.round.read >= 1
  }

  ghost predicate AllGood(s: Network) {
    && (forall m :: m in s.flight ==> GoodMessage(m))
    && (forall m :: m in s.arrivals ==> GoodMessage(m))
    && (forall o :: o in s.orphans ==> GoodOrphan(o))
    && (forall n :: n in s.held ==> GoodCarrier(s.held[n]))
  }

  /** Each forward makes at most one message, and each message at most one carrier. */
  ghost predicate Counted(s: Network) {
    |s.carried| + |s.flight| <= 1 + s.forwards
  }

  lemma BinaryRound(f: Round, blocks: seq<CanonicalBlock>, loads: bool, pick: nat, node: EndpointID)
    requires f.read >= 1 && Replaceable(blocks) && |blocks| < MAX_BLOCKS
    ensures var t := Selected(true, f, loads, pick);
            var ms := Outgoing(blocks, t, loads, node);
            && (forall m :: m in ms ==> GoodMessage(m)) && |ms| == |t.peers|
            && (t.peers != [] ==> t.kept >= 1 && Covered(f, t, ms))
  {
    hide Select, Sprayed, WithPrevious, OfType, DistinctNumbers, ReceivedCopies;
    var t := Selected(true, f, loads, pick);
    SelectConserves(true, f.read, f.candidates, loads, pick);
    var ms := Outgoing(blocks, t, loads, node);
    if t.sent.Some? {
      BinaryLoads(f, loads, pick);
      SprayedIsReceived(blocks, t.sent.value, node);
      assert ms == [ms[0]] && GoodMessage(ms[0]);
      SumOne(ms[0], OfMessage(0));
      SumOne(ms[0], OfMessage(1));
    }
  }

  lemma BinaryLoads(f: Round, loads: bool, pick: nat)
    ensures Selected(true, f, loads, pick).sent.Some? ==> loads
  {
  }

  lemma FinishGood(s: Network, a: Action)
    requires a.Finish? && Enabled(s, a) && AllGood(s)
    ensures var t := FinishStep(true, s, a); AllGood(t) && Paid(true, s, t) && (Counted(s) ==> Counted(t))
  {
    hide Outgoing, GoodMessage, Paid, Covered, Replaceable, Select;
    var c := s.held[a.node];
    assert GoodCarrier(c) && c.rounds[a.i] in c.rounds;
    BinaryRound(c.rounds[a.i], c.blocks, a.loads, a.pick, a.node);
    ClaimedWithout(true, c, a.i);
    assert OneLive(true, Ended(true, c, a.i, a.loads, a.pick));
    FinishPaid(true, s, a);
  }

  lemma OrphanGood(s: Network, a: Action)
    requires a.FinishOrphan? && Enabled(s, a) && AllGood(s)
    ensures var t := OrphanStep(true, s, a); AllGood(t) && Paid(true, s, t) && (Counted(s) ==> Counted(t))
  {
    hide Outgoing, GoodMessage, GoodCarrier, Paid, Covered, Replaceable, Select, Without;
    var o := s.orphans[a.k];
    assert GoodOrphan(o);
    BinaryRound(o.round, o.blocks, a.loads, a.pick, o.node);
    OrphanPaid(true, s, a);
  }

  lemma BeginGood(s: Network, a: Action)
    requires a.Begin? && Enabled(s, a) && AllGood(s) && Guarded(true, s, a)
    ensures AllGood(Step(true, s, a)) && Paid(true, s, Step(true, s, a))
  {
    hide GoodMessage, GoodOrphan, Replaceable, FilterPeers, Total;
    var c := s.held[a.node];
    assert GoodCarrier(c);
    ClaimedBegun(true, c, a.peers, a.default);
    BeginTotal(true, s, a.node, a.peers, a.default, 0);
    BeginTotal(true, s, a.node, a.peers, a.default, 1);
  }

  lemma StoreGood(s: Network, k: nat)
    requires k < |s.flight| && AllGood(s)
    ensures var t := StoreStep(s, k); AllGood(t) && Paid(true, s, t) && (Counted(s) ==> Counted(t))
  {
    hide GoodOrphan, Replaceable, Total, ReceivedCopies, StoreMachine.PreviousNodes;
    var m := s.flight[k];
    assert GoodMessage(m) && (m.to in s.held ==> GoodCarrier(s.held[m.to]));
    StoreTotal(true, s, k, 0);
    StoreTotal(true, s, k, 1);
    assert |s.carried + {m.to}| <= |s.carried| + 1;
  }

  lemma NotifyGood(s: Network, k: nat)
    requires k < |s.arrivals| && AllGood(s)
    ensures AllGood(NotifyStep(s, k)) && Paid(true, s, NotifyStep(s, k))
  {
    hide GoodOrphan, Replaceable, Total, ReceivedCopies, Without;
    var m := s.arrivals[k];
    assert GoodMessage(m) && (m.to in s.held ==> GoodCarrier(s.held[m.to]));
    NotifyTotal(true, s, k, 0);
    NotifyTotal(true, s, k, 1);
  }

  lemma DropGood(s: Network, node: EndpointID)
    requires node in s.held && AllGood(s)
    ensures AllGood(DropStep(s, node)) && Paid(true, s, DropStep(s, node))
  {
    hide GoodMessage, Replaceable, Total, Elsewhere;
    assert GoodCarrier(s.held[node]);
    DropTotal(true, s, node, 0);
    DropTotal(true, s, node, 1);
    forall o | o in Orphaned(node, s.held[node]) ensures GoodOrphan(o) {
      assert o.round in s.held[node].rounds;
    }
  }

  /** Every guarded step keeps the invariant, makes up no copy and pays for its forwards. */
  lemma StepPaid(s: Network, a: Action)
    requires AllGood(s) && Counted(s) && Guarded(true, s, a)
    ensures var t := Step(true, s, a); AllGood(t) && Counted(t) && Paid(true, s, t)
  {
    hide FinishStep, OrphanStep, StoreStep, NotifyStep, DropStep, GoodMessage, GoodOrphan, Replaceable, Total, Started;
    if Enabled(s, a) {
      match a
      case Begin(_, _, _) => BeginGood(s, a);
      case Finish(_, _, _, _) => FinishGood(s, a);
      case FinishOrphan(_, _, _) => OrphanGood(s, a);
      case Store(k) => StoreGood(s, k);
      case Notify(k) =>
        NotifyGood(s, k);
        NothingSent(s, k);
      case Lose(k) =>
        LoseTotal(true, s, k, 0);
        LoseTotal(true, s, k, 1);
      case Learn(node, holder) =>
        assert GoodCarrier(s.held[node]);
        LearnTotal(true, s, node, s.held[node].known + [holder], 0);
        LearnTotal(true, s, node, s.held[node].known + [holder], 1);
      case Drop(node) =>
        DropGood(s, node);
        NothingDropped(s, node);
    }
  }

  lemma NothingSent(s: Network, k: nat)
    requires k < |s.arrivals|
    ensures var t := NotifyStep(s, k); t.flight == s.flight && t.carried == s.carried && t.forwards == s.forwards
  {
  }

  lemma NothingDropped(s: Network, node: EndpointID)
    requires node in s.held
    ensures var t := DropStep(s, node); t.flight == s.flight && t.carried == s.carried && t.forwards == s.forwards
  {
  }

  lemma {:induction false} RunPaid(s: Network, actions: seq<Action>)
    requires AllGood(s) && Counted(s) && AllGuarded(true, s, actions)
    ensures var t := Run(true, s, actions); AllGood(t) && Counted(t) && Paid(true, s, t)
    decreases |actions|
  {
    hide AllGood, Counted, Step, Total, Guarded;
    if actions != [] {
      StepPaid(s, actions[0]);
      RunPaid(Step(true, s, actions[0]), actions[1..]);
    }
  }

  lemma NewTotal(binary: bool, copies: uint64, origin: EndpointID, blocks: seq<CanonicalBlock>, base: nat)
    ensures Total(binary, New(copies, origin, blocks), base) == Above(copies, base)
  {
    hide HeldSum;
    HeldUpdate(map[], origin, Carrier(Some(copies), [origin], blocks, []), OfCarrier(binary, base));
    NothingHeld(OfCarrier(binary, base));
  }

  lemma NothingHeld(weight: Carrier -> nat)
    ensures HeldSum(map[], weight) == 0
  {
  }

  /** Binary mode, from one new bundle with at most one spray block: in every run in which no two live forwardings overlap at
      a node and they begin only when copies were saved, whatever is lost or dropped, however messages overtake each other,
      and wherever other steps fall between those of a forwarding or of a reception, nodes and messages together never have
      more than the initial number of copies, every carrier has at least one, at most that many nodes ever carry the
      bundle, and it is sent at least once less. */
  lemma BinarySprayBound(copies: uint64, origin: EndpointID, blocks: seq<CanonicalBlock>, actions: seq<Action>)
    requires copies >= 1 && DistinctNumbers(blocks) && |OfType(blocks, TYPE_BINARY_SPRAY)| <= 1
    requires AllGuarded(true, New(copies, origin, blocks), actions)
    ensures var s := Run(true, New(copies, origin, blocks), actions);
            && Total(true, s, 0) <= copies
            && (forall n :: n in s.held && s.held[n].saved.Some? ==> s.held[n].saved.value >= 1)
            && |s.carried| <= copies && s.forwards <= copies - 1
  {
    hide OfType, DistinctNumbers, Run, Total;
    var s0 := New(copies, origin, blocks);
    NewTotal(true, copies, origin, blocks, 0);
    NewTotal(true, copies, origin, blocks, 1);
    RunPaid(s0, actions);
    var s := Run(true, s0, actions);
    forall n | n in s.held && s.held[n].saved.Some? ensures s.held[n].saved.value >= 1 {
      assert GoodCarrier(s.held[n]);
    }
  }

  // ---------------------------------------------------------------- when binary mode makes up copies

  function OfSaved(): Carrier -> nat {
    (c: Carrier) => Saved(c)
  }

  /** The copies saved at all nodes and under way. */
  ghost function Copies(s: Network): nat {
    HeldSum(s.held, OfSaved()) + Sum(s.arrivals, OfMessage(0)) + Sum(s.flight, OfMessage(0))
  }

  ghost predicate AllReplaceable(s: Network) {
    && (forall n :: n in s.held ==> Replaceable(s.held[n].blocks))
    && (forall o :: o in s.orphans ==> Replaceable(o.blocks))
  }

  /** What is sent and kept in binary mode is what was read. */
  lemma BinarySplit(f: Round, blocks: seq<CanonicalBlock>, loads: bool, pick: nat, node: EndpointID)
    requires Replaceable(blocks) && |blocks| < MAX_BLOCKS
    ensures var t := Selected(true, f, loads, pick);
            var ms := Outgoing(blocks, t, loads, node);
            if t.peers == [] then Sum(ms, OfMessage(0)) == 0
            else t.kept + Sum(ms, OfMessage(0)) == f.read && Sum(ms, OfMessage(0)) >= 1
  {
    hide Select, Sprayed, WithPrevious, OfType, DistinctNumbers, ReceivedCopies;
    var t := Selected(true, f, loads, pick);
    SelectConserves(true, f.read, f.candidates, loads, pick);
    var ms := Outgoing(blocks, t, loads, node);
    if t.sent.Some? {
      BinaryLoads(f, loads, pick);
      SprayedIsReceived(blocks, t.sent.value, node);
      assert ms == [ms[0]];
      SumOne(ms[0], OfMessage(0));
    }
  }

  /** Of all steps, these make up copies: a forwarding that begins before copies were saved, one that writes although the
      saved copies are fewer than those it has read, and one that ends after its node has dropped the bundle. */
  predicate MakesUp(s: Network, a: Action) {
    Enabled(s, a) &&
    match a
    case Begin(node, _, default) => s.held[node].saved.None? && default > 0
    case Finish(node, i, loads, pick) =>
      var f := s.held[node].rounds[i];
      Selected(true, f, loads, pick).peers != [] && f.read > Saved(s.held[node])
    case FinishOrphan(k, loads, pick) => Selected(true, s.orphans[k].round, loads, pick).peers != []
    case _ => false
  }

  /** In any state, overlapping or not. */
  lemma CopiesGrowExactly(s: Network, a: Action)
    requires AllReplaceable(s)
    ensures Copies(Step(true, s, a)) > Copies(s) <==> MakesUp(s, a)
  {
    hide HeldSum, Select, Outgoing, OfMessage, Replaceable, FilterPeers, Without, ReceivedCopies;
    if Enabled(s, a) {
      match a
      case Begin(node, peers, default) =>
        HeldUpdate(s.held, node, Started(s.held[node], peers, default), OfSaved());
      case Finish(node, i, loads, pick) =>
        FinishTotal(true, s, a, OfSaved(), OfMessage(0));
        BinarySplit(s.held[node].rounds[i], s.held[node].blocks, loads, pick, node);
      case FinishOrphan(k, loads, pick) =>
        var o := s.orphans[k];
        OrphanTotal(true, s, a, 0);
        BinarySplit(o.round, o.blocks, loads, pick, o.node);
      case Store(k) => StoreCopies(s, k);
      case Notify(k) => NotifyCopies(s, k);
      case Lose(k) => SumWithout(s.flight, k, OfMessage(0));
      case Learn(node, holder) =>
        HeldUpdate(s.held, node, s.held[node].(known := s.held[node].known + [holder]), OfSaved());
      case Drop(node) =>
        HeldWithout(s.held, node, OfSaved());
        SumElsewhere(s.arrivals, node, OfMessage(0));
    }
  }

  lemma StoreCopies(s: Network, k: nat)
    requires k < |s.flight|
    ensures Copies(StoreStep(s, k)) == Copies(s)
  {
    hide HeldSum, OfMessage, Without, StoreMachine.PreviousNodes;
    var m := s.flight[k];
    SumWithout(s.flight, k, OfMessage(0));
    SumJoined(s.arrivals, [m], OfMessage(0));
    SumOne(m, OfMessage(0));
    HeldUpdate(s.held, m.to, StoreStep(s, k).held[m.to], OfSaved());
  }

  lemma NotifyCopies(s: Network, k: nat)
    requires k < |s.arrivals|
    ensures Copies(NotifyStep(s, k)) <= Copies(s)
  {
    hide HeldSum, Without, ReceivedCopies;
    var m := s.arrivals[k];
    SumWithout(s.arrivals, k, OfMessage(0));
    if ReceivedCopies(m.blocks).Copies? && m.to in s.held {
      HeldUpdate(s.held, m.to, NotifyStep(s, k).held[m.to], OfSaved());
    }
  }

  lemma CandidateAlone(known: EndpointID, cs: Sender)
    requires cs.peer != known
    ensures FilterPeers([known], [cs]) == [cs]
  {
    assert [cs][..0] == [] && FilterPeers([known], []) == [];
  }

  /** The source once two forwardings to different peers have begun. */
  function TwoBegun(copies: uint64, origin: EndpointID, blocks: seq<CanonicalBlock>, a: Sender, b: Sender): Network {
    var c := Carrier(Some(copies), [origin], blocks, [Round(copies, [a]), Round(copies, [b])]);
    New(copies, origin, blocks).(held := map[origin := c])
  }

  lemma BothBegin(copies: uint64, origin: EndpointID, blocks: seq<CanonicalBlock>, a: Sender, b: Sender)
    requires a.peer != origin && b.peer != origin
    ensures Run(true, New(copies, origin, blocks), [Begin(origin, [a], 0), Begin(origin, [b], 0)])
         == TwoBegun(copies, origin, blocks, a, b)
  {
    hide FilterPeers;
    CandidateAlone(origin, a);
    CandidateAlone(origin, b);
    var s := New(copies, origin, blocks);
    var first, second := Begin(origin, [a], 0), Begin(origin, [b], 0);
    var t := Step(true, s, first);
    assert Started(s.held[origin], [a], 0) == Carrier(Some(copies), [origin], blocks, [Round(copies, [a])]);
    assert t.held == map[origin := Carrier(Some(copies), [origin], blocks, [Round(copies, [a])])];
    var u := Step(true, t, second);
    assert Started(t.held[origin], [b], 0) == TwoBegun(copies, origin, blocks, a, b).held[origin];
    assert u.held == TwoBegun(copies, origin, blocks, a, b).held;
    assert [first, second][1..] == [second] && [second][1..] == [];
    assert Run(true, u, []) == u;
    assert Run(true, t, [second]) == Run(true, u, []);
  }

  /** Two forwardings of a new bundle that overlap: both give away half of all the copies, and half as many are made up. */
  lemma OverlapMakesUpCopies(copies: uint64, origin: EndpointID, blocks: seq<CanonicalBlock>, a: Sender, b: Sender)
    requires copies >= 2 && Replaceable(blocks) && |blocks| < MAX_BLOCKS && a.peer != origin && b.peer != origin
    ensures var s := Run(true, New(copies, origin, blocks),
                         [Begin(origin, [a], 0), Begin(origin, [b], 0), Finish(origin, 0, true, 0), Finish(origin, 0, true, 0)]);
            Copies(s) == copies + copies / 2 && s.forwards == 2
  {
    hide FilterPeers, HeldSum, Replaceable, OfMessage, SentBlocks;
    var s := TwoBegun(copies, origin, blocks, a, b);
    BothBegin(copies, origin, blocks, a, b);
    var end := Finish(origin, 0, true, 0);
    TwoBegunCopies(copies, origin, blocks, a, b);
    var t := FinishStep(true, s, end);
    assert Step(true, s, end) == t;
    FinishTotal(true, s, end, OfSaved(), OfMessage(0));
    BinarySplit(Round(copies, [a]), blocks, true, 0, origin);
    assert Without([Round(copies, [a]), Round(copies, [b])], 0) == [Round(copies, [b])];
    assert t.held[origin] == Carrier(Some(copies - copies / 2), [origin], blocks, [Round(copies, [b])]);
    var u := FinishStep(true, t, end);
    assert Step(true, t, end) == u;
    FinishTotal(true, t, end, OfSaved(), OfMessage(0));
    BinarySplit(Round(copies, [b]), blocks, true, 0, origin);
    RunTwice(New(copies, origin, blocks), [Begin(origin, [a], 0), Begin(origin, [b], 0)], end);
  }

  lemma TwoBegunCopies(copies: uint64, origin: EndpointID, blocks: seq<CanonicalBlock>, a: Sender, b: Sender)
    ensures Copies(TwoBegun(copies, origin, blocks, a, b)) == copies
  {
    hide HeldSum;
    var s := TwoBegun(copies, origin, blocks, a, b);
    HeldUpdate(map[], origin, s.held[origin], OfSaved());
    NothingHeld(OfSaved());
  }

  lemma RunTwice(s: Network, actions: seq<Action>, end: Action)
    requires |actions| == 2
    ensures Run(true, s, [actions[0], actions[1], end, end]) == Step(true, Step(true, Run(true, s, actions), end), end)
  {
    hide Step;
    var all := [actions[0], actions[1], end, end];
    assert all[1..] == [actions[1], end, end] && all[1..][1..] == [end, end] && [end, end][1..] == [end] && [end][1..] == [];
    var t := Step(true, Step(true, s, actions[0]), actions[1]);
    assert actions[1..] == [actions[1]] && actions[1..][1..] == [];
    assert Run(true, s, actions) == Run(true, Step(true, s, actions[0]), [actions[1]]) == Run(true, t, []) == t;
    assert Run(true, t, [end, end]) == Run(true, Step(true, t, end), [end]) == Run(true, Step(true, Step(true, t, end), end), []);
  }

  // ---------------------------------------------------------------- basic mode

  ghost predicate Unsprayed(blocks: seq<CanonicalBlock>) {
    DistinctNumbers(blocks) && OfType(blocks, TYPE_BINARY_SPRAY) == []
  }

  ghost predicate NotAmong(origin: EndpointID, candidates: seq<Sender>) {
    forall cs :: cs in candidates ==> cs.peer != origin
  }

  /** Only the origin has copies to give, and it never learns of itself as a peer. */
  ghost predicate BasicCarrier(node: EndpointID, c: Carrier, origin: EndpointID) {
    && Unsprayed(c.blocks) && OneLive(false, c)
    && (if node == origin
        then
          && origin in c.known && c.saved.Some?
          && forall f :: f in c.rounds ==> NotAmong(origin, f.candidates) && (Live(false, f, c.blocks) ==> f.read == c.saved.value)
        else Saved(c) == 0 && forall f :: f in c.rounds ==> f.read == 0)
  }

  ghost predicate BasicOrphan(o: Orphan, origin: EndpointID) {
    Unsprayed(o.blocks) && if o.node == origin then NotAmong(origin, o.round.candidates) else o.round.read == 0
  }

  ghost predicate BasicMessage(m: Message, origin: EndpointID) {
    m.to != origin && Unsprayed(m.blocks)
  }

  ghost predicate OnlyOriginSprays(s: Network, origin: EndpointID) {
    && (forall n :: n in s.held ==> BasicCarrier(n, s.held[n], origin))
    && (forall o :: o in s.orphans ==> BasicOrphan(o, origin))
    && (forall o :: o in s.orphans && o.node == origin ==> origin !in s.held)
    && (forall m :: m in s.flight ==> BasicMessage(m, origin))
    && (forall m :: m in s.arrivals ==> BasicMessage(m, origin))
  }

  /** Copies spent so far and copies left are at most what the origin started with, and just that while it has the
      bundle. */
  ghost predicate Balanced(s: Network, origin: EndpointID, copies: nat) {
    && s.forwards + Total(false, s, 0) <= copies
    && (origin in s.held ==> s.forwards + Saved(s.held[origin]) == copies)
  }

  lemma StaysUnsprayed(blocks: seq<CanonicalBlock>, own: EndpointID)
    requires Unsprayed(blocks) && |blocks| <= MAX_BLOCKS
    ensures Unsprayed(WithPrevious(blocks, own))
  {
    hide OfType, WithPrevious, DistinctNumbers;
    PreviousNodeExactly(blocks, own);
    var after := OfType(WithPrevious(blocks, own), TYPE_BINARY_SPRAY);
    assert |multiset(after)| == |after| == 0;
  }

  lemma NothingReceived(blocks: seq<CanonicalBlock>)
    requires Unsprayed(blocks)
    ensures ReceivedCopies(blocks) == Received.Copies(0)
  {
  }

  lemma {:induction false} UnsprayedSum(ms: seq<Message>, origin: EndpointID)
    requires forall m :: m in ms ==> BasicMessage(m, origin)
    ensures Sum(ms, OfMessage(0)) == 0
  {
    hide Unsprayed, ReceivedCopies;
    if ms != [] {
      assert ms[0] in ms && forall m :: m in ms[1..] ==> m in ms;
      NothingReceived(ms[0].blocks);
      UnsprayedSum(ms[1..], origin);
    }
  }

  lemma BasicRound(f: Round, blocks: seq<CanonicalBlock>, loads: bool, pick: nat, node: EndpointID, origin: EndpointID)
    requires Unsprayed(blocks) && |blocks| < MAX_BLOCKS && (NotAmong(origin, f.candidates) || f.read == 0)
    ensures var t := Selected(false, f, loads, pick);
            var ms := Outgoing(blocks, t, loads, node);
            && (forall m :: m in ms ==> BasicMessage(m, origin)) && Sum(ms, OfMessage(0)) == 0
            && |t.peers| + t.kept == f.read && |ms| <= |t.peers| && (f.read == 0 ==> t.peers == [])
  {
    hide Select, Sum, WithPrevious, Unsprayed;
    var t := Selected(false, f, loads, pick);
    SelectConserves(false, f.read, f.candidates, loads, pick);
    StaysUnsprayed(blocks, node);
    var ms := Outgoing(blocks, t, loads, node);
    forall m | m in ms ensures BasicMessage(m, origin) {
      var i :| 0 <= i < |ms| && ms[i] == m;
      assert t.peers[i] == f.candidates[i] && f.candidates[i] in f.candidates;
    }
    UnsprayedSum(ms, origin);
  }

  /** What every step of basic mode keeps. */
  ghost predicate Basic(s: Network, origin: EndpointID, copies: nat) {
    OnlyOriginSprays(s, origin) && Balanced(s, origin, copies) && Counted(s)
  }

  /** Peers selected and copies left are no more than before. */
  ghost predicate Spends(s: Network, t: Network) {
    t.forwards + Total(false, t, 0) <= s.forwards + Total(false, s, 0)
  }

  lemma BasicStarted(node: EndpointID, c: Carrier, peers: seq<Sender>, default: uint64, origin: EndpointID)
    requires BasicCarrier(node, c, origin) && (c.saved.Some? || default == 0)
    requires NoneLive(false, c) || !Live(false, Begun(c, peers, default), c.blocks)
    ensures BasicCarrier(node, Started(c, peers, default), origin) && Saved(Started(c, peers, default)) == Saved(c)
  {
    hide FilterPeers, Unsprayed, OneLive, Live;
    FilteredPeers(c.known, peers);
    ClaimedBegun(false, c, peers, default);
  }

  lemma BasicBegin(s: Network, a: Action, origin: EndpointID, copies: nat)
    requires a.Begin? && Enabled(s, a) && Guarded(false, s, a) && Basic(s, origin, copies)
    ensures Basic(Step(false, s, a), origin, copies) && Spends(s, Step(false, s, a))
  {
    hide Total, BasicOrphan, BasicMessage, Unsprayed, Started, Begun, Live, NoneLive, OneLive, NotAmong;
    var c := s.held[a.node];
    assert BasicCarrier(a.node, c, origin);
    BasicStarted(a.node, c, a.peers, a.default, origin);
    BeginTotal(false, s, a.node, a.peers, a.default, 0);
  }

  lemma BasicEnded(node: EndpointID, c: Carrier, i: nat, loads: bool, pick: nat, origin: EndpointID)
    requires BasicCarrier(node, c, origin) && i < |c.rounds| && |c.blocks| < MAX_BLOCKS
    ensures var t := Selected(false, c.rounds[i], loads, pick);
            var d := Ended(false, c, i, loads, pick);
            BasicCarrier(node, d, origin) && |t.peers| + Saved(d) == Saved(c)
  {
    hide Select, Unsprayed, NotAmong;
    assert c.rounds[i] in c.rounds;
    ClaimedWithout(false, c, i);
    SelectsIfLive(false, c.rounds[i], c.blocks, loads, pick);
    SelectConserves(false, c.rounds[i].read, c.rounds[i].candidates, loads, pick);
  }

  lemma StillOnlyOrigin(s: Network, node: EndpointID, d: Carrier, ms: seq<Message>, n: nat, origin: EndpointID)
    requires OnlyOriginSprays(s, origin) && node in s.held && BasicCarrier(node, d, origin)
    requires forall m :: m in ms ==> BasicMessage(m, origin)
    ensures OnlyOriginSprays(s.(held := s.held[node := d], flight := s.flight + ms, forwards := n), origin)
  {
    hide BasicOrphan, BasicMessage, BasicCarrier;
  }

  lemma BasicFinish(s: Network, a: Action, origin: EndpointID, copies: nat)
    requires a.Finish? && Enabled(s, a) && Basic(s, origin, copies)
    ensures Basic(FinishStep(false, s, a), origin, copies) && Spends(s, FinishStep(false, s, a))
    ensures a.node != origin ==> FinishStep(false, s, a).forwards == s.forwards
  {
    hide Select, Outgoing, Total, BasicOrphan, BasicMessage, Unsprayed, NotAmong, Ended, OneLive, Live;
    var c := s.held[a.node];
    assert BasicCarrier(a.node, c, origin) && c.rounds[a.i] in c.rounds;
    BasicEnded(a.node, c, a.i, a.loads, a.pick, origin);
    BasicRound(c.rounds[a.i], c.blocks, a.loads, a.pick, a.node, origin);
    BasicFinishTotal(s, a, origin);
    hide OnlyOriginSprays, BasicCarrier;
    var t := FinishStep(false, s, a);
    StillOnlyOrigin(s, a.node, t.held[a.node],
                    Outgoing(c.blocks, Selected(false, c.rounds[a.i], a.loads, a.pick), a.loads, a.node), t.forwards, origin);
  }

  lemma BasicFinishTotal(s: Network, a: Action, origin: EndpointID)
    requires a.Finish? && Enabled(s, a) && BasicCarrier(a.node, s.held[a.node], origin)
    ensures FinishStep(false, s, a).forwards + Total(false, FinishStep(false, s, a), 0) <= s.forwards + Total(false, s, 0)
  {
    hide Select, Outgoing, HeldSum, Unsprayed, OfMessage, NotAmong, Claimed, OneLive;
    var c := s.held[a.node];
    assert c.rounds[a.i] in c.rounds;
    ClaimedWithout(false, c, a.i);
    SameClaim(false, Ended(false, c, a.i, a.loads, a.pick), c, a.i);
    SelectsIfLive(false, c.rounds[a.i], c.blocks, a.loads, a.pick);
    BasicRound(c.rounds[a.i], c.blocks, a.loads, a.pick, a.node, origin);
    FinishTotal(false, s, a, OfCarrier(false, 0), OfMessage(0));
  }

  lemma BasicOrphanEnds(s: Network, a: Action, origin: EndpointID, copies: nat)
    requires a.FinishOrphan? && Enabled(s, a) && Basic(s, origin, copies)
    ensures Basic(OrphanStep(false, s, a), origin, copies) && Spends(s, OrphanStep(false, s, a))
    ensures s.orphans[a.k].node != origin ==> OrphanStep(false, s, a).forwards == s.forwards
  {
    hide Select, Outgoing, Total, BasicCarrier, BasicMessage, Unsprayed, OfMessage, NotAmong, Without;
    var o := s.orphans[a.k];
    assert BasicOrphan(o, origin);
    BasicRound(o.round, o.blocks, a.loads, a.pick, o.node, origin);
    SelectsIfLive(false, o.round, o.blocks, a.loads, a.pick);
    OrphanTotal(false, s, a, 0);
  }

  lemma BasicStore(s: Network, k: nat, origin: EndpointID, copies: nat)
    requires k < |s.flight| && Basic(s, origin, copies)
    ensures Basic(StoreStep(s, k), origin, copies) && Spends(s, StoreStep(s, k))
  {
    hide Total, BasicOrphan, Unsprayed, NotAmong, StoreMachine.PreviousNodes;
    var m := s.flight[k];
    assert BasicMessage(m, origin) && (m.to in s.held ==> BasicCarrier(m.to, s.held[m.to], origin));
    StoreTotal(false, s, k, 0);
    assert |s.carried + {m.to}| <= |s.carried| + 1;
  }

  lemma BasicNotify(s: Network, k: nat, origin: EndpointID, copies: nat)
    requires k < |s.arrivals| && Basic(s, origin, copies)
    ensures Basic(NotifyStep(s, k), origin, copies) && Spends(s, NotifyStep(s, k))
  {
    hide Total, BasicOrphan, Unsprayed, NotAmong, Without, ReceivedCopies;
    var m := s.arrivals[k];
    assert BasicMessage(m, origin) && (m.to in s.held ==> BasicCarrier(m.to, s.held[m.to], origin));
    NothingReceived(m.blocks);
    NotifyTotal(false, s, k, 0);
  }

  lemma BasicDrop(s: Network, node: EndpointID, origin: EndpointID, copies: nat)
    requires node in s.held && Basic(s, origin, copies)
    ensures Basic(DropStep(s, node), origin, copies) && Spends(s, DropStep(s, node))
  {
    hide Total, BasicMessage, Unsprayed, NotAmong, Elsewhere;
    var c := s.held[node];
    assert BasicCarrier(node, c, origin);
    DropTotal(false, s, node, 0);
    forall o | o in Orphaned(node, c) ensures BasicOrphan(o, origin) && o.node == node {
      assert o.round in c.rounds;
    }
  }

  lemma BasicLose(s: Network, k: nat, origin: EndpointID, copies: nat)
    requires k < |s.flight| && Basic(s, origin, copies)
    ensures var t := s.(flight := Without(s.flight, k)); Basic(t, origin, copies) && Spends(s, t)
  {
    hide Total, BasicCarrier, BasicOrphan, BasicMessage;
    LoseTotal(false, s, k, 0);
  }

  lemma BasicLearn(s: Network, node: EndpointID, known: seq<EndpointID>, origin: EndpointID, copies: nat)
    requires node in s.held && s.held[node].known <= known && Basic(s, origin, copies)
    ensures var t := s.(held := s.held[node := s.held[node].(known := known)]); Basic(t, origin, copies) && Spends(s, t)
  {
    hide Total, BasicOrphan, BasicMessage, Unsprayed, NotAmong;
    assert BasicCarrier(node, s.held[node], origin);
    LearnTotal(false, s, node, known, 0);
  }

  /** Every guarded step keeps the invariant, and only the origin pays for forwards. */
  lemma StepBasic(s: Network, a: Action, origin: EndpointID, copies: nat)
    requires Basic(s, origin, copies) && Guarded(false, s, a)
    ensures Basic(Step(false, s, a), origin, copies) && Spends(s, Step(false, s, a))
    ensures Forwarder(s, a) != Some(origin) ==> Step(false, s, a).forwards == s.forwards
  {
    hide FinishStep, OrphanStep, StoreStep, NotifyStep, DropStep, Basic, Total, Started, Guarded;
    if Enabled(s, a) {
      match a
      case Begin(_, _, _) => BasicBegin(s, a, origin, copies);
      case Finish(_, _, _, _) => BasicFinish(s, a, origin, copies);
      case FinishOrphan(_, _, _) => BasicOrphanEnds(s, a, origin, copies);
      case Store(k) =>
        BasicStore(s, k, origin, copies);
        NothingForwarded(s, k);
      case Notify(k) =>
        BasicNotify(s, k, origin, copies);
        NothingSent(s, k);
      case Lose(k) => BasicLose(s, k, origin, copies);
      case Learn(node, holder) => BasicLearn(s, node, s.held[node].known + [holder], origin, copies);
      case Drop(node) =>
        BasicDrop(s, node, origin, copies);
        NothingDropped(s, node);
    }
  }

  lemma NothingForwarded(s: Network, k: nat)
    requires k < |s.flight|
    ensures StoreStep(s, k).forwards == s.forwards
  {
  }

  /** The node whose forwarding ends in a step. */
  function Forwarder(s: Network, a: Action): Option<EndpointID> {
    if a.Finish? then Some(a.node)
    else if a.FinishOrphan? && a.k < |s.orphans| then Some(s.orphans[a.k].node)
    else None
  }

  lemma {:induction false} RunBasic(s: Network, actions: seq<Action>, origin: EndpointID, copies: nat)
    requires Basic(s, origin, copies) && AllGuarded(false, s, actions)
    ensures Basic(Run(false, s, actions), origin, copies) && Spends(s, Run(false, s, actions))
    decreases |actions|
  {
    hide Basic, Step, Guarded, Total;
    if actions != [] {
      StepBasic(s, actions[0], origin, copies);
      RunBasic(Step(false, s, actions[0]), actions[1..], origin, copies);
    }
  }

  /** In any state, overlapping or not, a forwarding leaves the sum of the peers selected and the copies saved as it was
      exactly if it selects no peer or the saved copies are still those it has read. */
  lemma BudgetKeptExactly(s: Network, a: Action)
    requires a.Finish? && Enabled(s, a)
    ensures var c := s.held[a.node];
            var t := FinishStep(false, s, a);
            var kept := t.forwards + Saved(t.held[a.node]) == s.forwards + Saved(c);
            kept <==> Selected(false, c.rounds[a.i], a.loads, a.pick).peers == [] || c.rounds[a.i].read == Saved(c)
  {
    hide Select, Outgoing;
    var f := s.held[a.node].rounds[a.i];
    SelectConserves(false, f.read, f.candidates, a.loads, a.pick);
  }

  /** Basic mode, from one new bundle without spray blocks: in every run in which no two live forwardings overlap at a node
      and they begin only when copies were saved, or none are assumed, the peers selected and the copies the origin has left
      add up to the initial number as long as the origin has the bundle; no other node selects a peer; and at most that many
      other nodes ever carry it. */
  lemma BasicSprayBudget(copies: uint64, origin: EndpointID, blocks: seq<CanonicalBlock>, actions: seq<Action>, next: Action)
    requires DistinctNumbers(blocks) && OfType(blocks, TYPE_BINARY_SPRAY) == []
    requires AllGuarded(false, New(copies, origin, blocks), actions)
    ensures var s := Run(false, New(copies, origin, blocks), actions);
            && (origin in s.held ==> s.forwards + Saved(s.held[origin]) == copies)
            && s.forwards <= copies && |s.carried| <= 1 + copies
            && (Guarded(false, s, next) && Forwarder(s, next) != Some(origin) ==> Step(false, s, next).forwards == s.forwards)
  {
    hide OfType, DistinctNumbers, Run, Total, Step, Guarded, AllGuarded;
    var s0 := New(copies, origin, blocks);
    NewTotal(false, copies, origin, blocks, 0);
    RunBasic(s0, actions, origin, copies);
    var s := Run(false, s0, actions);
    if Guarded(false, s, next) {
      StepBasic(s, next, origin, copies);
    }
  }
}
