/** When a forwarding may begin in a spray and wait network: the exact condition in both modes. */
module SprayGuard {
  import opened Bytes
  import opened Endpoint
  import opened Blocks
  import opened Routing
  import opened SprayNetwork

  // ---------------------------------------------------------------- when a forwarding may begin in binary mode

  /** No more copies than that, and no carrier without one. */
  ghost predicate Sparing(s: Network, copies: nat) {
    Total(true, s, 0) <= copies && forall n :: n in s.held && s.held[n].saved.Some? ==> s.held[n].saved.value >= 1
  }

  /** Whatever happens from here, unless a later forwarding begins that should not. */
  ghost predicate NeverMakesUp(s: Network, copies: nat) {
    forall actions :: AllGuarded(true, s, actions) ==> Sparing(Run(true, s, actions), copies)
  }

  lemma PaidIsSparing(s: Network, actions: seq<Action>, copies: nat)
    requires AllGood(s) && Counted(s) && AllGuarded(true, s, actions) && Total(true, s, 0) <= copies
    ensures Sparing(Run(true, s, actions), copies)
  {
    hide Total, Run, AllGuarded, GoodMessage, GoodOrphan;
    RunPaid(s, actions);
    var t := Run(true, s, actions);
    forall n | n in t.held && t.held[n].saved.Some? ensures t.held[n].saved.value >= 1 {
      assert GoodCarrier(t.held[n]);
    }
  }

  /** A live forwarding that finishes gives away half of what it has read. */
  lemma FinishGives(s: Network, node: EndpointID, i: nat)
    requires node in s.held && i < |s.held[node].rounds| && Replaceable(s.held[node].blocks)
    requires Live(true, s.held[node].rounds[i], s.held[node].blocks)
    ensures var c := s.held[node];
            var r := c.rounds[i].read;
            var d := c.(saved := Some(r - r / 2), rounds := Without(c.rounds, i));
            var t := Step(true, s, Finish(node, i, true, 0));
            && node in t.held && t.held[node] == d
            && Total(true, t, 0) + Worth(true, c) == Total(true, s, 0) + Worth(true, d) + r / 2
  {
    hide HeldSum, Outgoing, Replaceable, OfMessage, OfOrphan, Claimed;
    var c := s.held[node];
    var f := c.rounds[i];
    var a := Finish(node, i, true, 0);
    assert Selected(true, f, true, 0) == Selection([f.candidates[0]], f.read - f.read / 2, Some(f.read / 2)) by {
      FirstIsPicked(f);
    }
    BinarySplit(f, c.blocks, true, 0, node);
    FinishTotal(true, s, a, OfCarrier(true, 0), OfMessage(0));
  }

  lemma FirstIsPicked(f: Round)
    requires f.candidates != [] && f.read > 1
    ensures Selected(true, f, true, 0) == Selection([f.candidates[0]], f.read - f.read / 2, Some(f.read / 2))
  {
  }

  /** Two live forwardings: when the one that has read more finishes last, copies are made up. */
  lemma BothGive(s: Network, node: EndpointID, i: nat, j: nat)
    requires node in s.held && Replaceable(s.held[node].blocks)
    requires i < |s.held[node].rounds| && j < |s.held[node].rounds| && i != j
    requires Live(true, s.held[node].rounds[i], s.held[node].blocks) && Live(true, s.held[node].rounds[j], s.held[node].blocks)
    ensures var c := s.held[node];
            var t := Run(true, s, [Finish(node, i, true, 0), Finish(node, if j < i then j else j - 1, true, 0)]);
            Total(true, t, 0) + Worth(true, c) >= Total(true, s, 0) + c.rounds[j].read + c.rounds[i].read / 2
  {
    hide Total, Claimed, Replaceable, Step, Live;
    var a, b := Finish(node, i, true, 0), Finish(node, if j < i then j else j - 1, true, 0);
    FinishGives(s, node, i);
    var t := Step(true, s, a);
    assert t.held[node].rounds[b.i] == s.held[node].rounds[j];
    FinishGives(t, node, b.i);
    RunPair(true, s, a, b);
  }

  lemma RunPair(binary: bool, s: Network, a: Action, b: Action)
    ensures Run(binary, s, [a, b]) == Step(binary, Step(binary, s, a), b)
  {
    hide Step;
    assert [a, b][1..] == [b] && [b][1..] == [];
    var t := Step(binary, s, a);
    assert Run(binary, t, [b]) == Run(binary, Step(binary, t, b), []);
  }

  lemma FinishingIsGuarded(binary: bool, s: Network, a: Action, b: Action)
    requires a.Finish? && b.Finish?
    ensures AllGuarded(binary, s, [a, b])
  {
    hide Step;
    assert [a, b][1..] == [b] && [b][1..] == [];
    assert AllGuarded(binary, Step(binary, s, a), [b]);
  }

  lemma BegunTotal(binary: bool, s: Network, a: Action)
    requires a.Begin? && Enabled(s, a)
    ensures var c := s.held[a.node];
            var d := Started(c, a.peers, a.default);
            var t := Step(binary, s, a);
            && t.forwards == s.forwards && a.node in t.held && t.held[a.node] == d
            && Total(binary, t, 0) + Worth(binary, c) == Total(binary, s, 0) + Worth(binary, d)
  {
    hide HeldSum, Started, OfMessage, OfOrphan, Claimed;
    HeldUpdate(s.held, a.node, Started(s.held[a.node], a.peers, a.default), OfCarrier(binary, 0));
  }

  lemma UnsavedBegin(s: Network, a: Action)
    requires a.Begin? && Enabled(s, a) && s.held[a.node].saved.None? && GoodCarrier(s.held[a.node])
    ensures !Sparing(Run(true, Step(true, s, a), []), Total(true, s, 0))
  {
    hide Total, Replaceable, FilterPeers;
    var c := s.held[a.node];
    BegunTotal(true, s, a);
    NothingClaimed(true, c.rounds, c.blocks);
    assert Worth(true, c) == 0;
    var t := Step(true, s, a);
    assert Run(true, t, []) == t && t.held[a.node].saved == Some(a.default);
  }

  /** After a forwarding has begun that should not have, at most two forwardings finish, and copies were made up. */
  lemma BadBegin(s: Network, a: Action) returns (actions: seq<Action>)
    requires a.Begin? && Enabled(s, a) && AllGood(s) && !Guarded(true, s, a)
    ensures AllGuarded(true, Step(true, s, a), actions)
    ensures !Sparing(Run(true, Step(true, s, a), actions), Total(true, s, 0))
  {
    hide Total, FilterPeers, Replaceable, GoodMessage, GoodOrphan, Run, Live, Claimed;
    var c := s.held[a.node];
    assert GoodCarrier(c);
    if c.saved.None? {
      UnsavedBegin(s, a);
      return [];
    }
    var f :| f in c.rounds && Live(true, f, c.blocks);
    var i :| 0 <= i < |c.rounds| && c.rounds[i] == f;
    actions := BothLive(s, a, i);
  }

  lemma BothLive(s: Network, a: Action, i: nat) returns (actions: seq<Action>)
    requires a.Begin? && Enabled(s, a) && GoodCarrier(s.held[a.node]) && i < |s.held[a.node].rounds|
    requires var c := s.held[a.node];
             c.saved.Some? && Live(true, c.rounds[i], c.blocks) && Live(true, Begun(c, a.peers, a.default), c.blocks)
    ensures AllGuarded(true, Step(true, s, a), actions)
    ensures !Sparing(Run(true, Step(true, s, a), actions), Total(true, s, 0))
  {
    hide Total, FilterPeers, Replaceable, Run, Claimed, AllGuarded, Step;
    var c := s.held[a.node];
    var d := Started(c, a.peers, a.default);
    var q := |c.rounds|;
    var t := Step(true, s, a);
    BegunTotal(true, s, a);
    assert d.rounds[i] == c.rounds[i] && d.rounds[q] == Begun(c, a.peers, a.default);
    ClaimedWithout(true, c, i);
    if c.rounds[i].read <= c.saved.value {
      actions := [Finish(a.node, i, true, 0), Finish(a.node, q - 1, true, 0)];
      BothGive(t, a.node, i, q);
    } else {
      actions := [Finish(a.node, q, true, 0), Finish(a.node, i, true, 0)];
      BothGive(t, a.node, q, i);
    }
    FinishingIsGuarded(true, t, actions[0], actions[1]);
  }

  lemma BeginExactly(s: Network, a: Action)
    requires a.Begin? && Enabled(s, a) && AllGood(s) && Counted(s)
    ensures NeverMakesUp(Step(true, s, a), Total(true, s, 0)) <==> Guarded(true, s, a)
  {
    hide Total, AllGood, Counted, Step, Run, AllGuarded, Sparing, Guarded, Enabled;
    var t := Step(true, s, a);
    if Guarded(true, s, a) {
      StepPaid(s, a);
      forall actions | AllGuarded(true, t, actions) ensures Sparing(Run(true, t, actions), Total(true, s, 0)) {
        PaidIsSparing(t, actions, Total(true, s, 0));
      }
    } else {
      var actions := BadBegin(s, a);
    }
  }

  /** A forwarding that begins in any run whose earlier ones met the condition: from there on no copies are ever made up, and
      no carrier is left without one, exactly if copies were saved, and not both it and another forwarding that is going on
      at the node are live. */
  lemma MakesUpExactly(copies: uint64, origin: EndpointID, blocks: seq<CanonicalBlock>, actions: seq<Action>, a: Action)
    requires copies >= 1 && DistinctNumbers(blocks) && |OfType(blocks, TYPE_BINARY_SPRAY)| <= 1
    requires AllGuarded(true, New(copies, origin, blocks), actions)
    requires a.Begin? && Enabled(Run(true, New(copies, origin, blocks), actions), a)
    ensures var s := Run(true, New(copies, origin, blocks), actions);
            NeverMakesUp(Step(true, s, a), Total(true, s, 0)) <==> Guarded(true, s, a)
  {
    hide OfType, DistinctNumbers, Run, Total, Step, Enabled, Guarded, AllGuarded, NeverMakesUp;
    RunPaid(New(copies, origin, blocks), actions);
    BeginExactly(Run(true, New(copies, origin, blocks), actions), a);
  }

  // ---------------------------------------------------------------- when a forwarding may begin in basic mode

  /** Whatever happens from here, unless a later forwarding begins that should not. */
  ghost predicate NeverOverspends(s: Network, budget: nat) {
    forall actions :: AllGuarded(false, s, actions) ==>
      Run(false, s, actions).forwards + Total(false, Run(false, s, actions), 0) <= budget
  }

  /** A live forwarding that finishes selects somebody. */
  lemma FinishSpends(s: Network, node: EndpointID, i: nat)
    requires node in s.held && i < |s.held[node].rounds| && Live(false, s.held[node].rounds[i], s.held[node].blocks)
    ensures var c := s.held[node];
            var t := Step(false, s, Finish(node, i, true, 0));
            && node in t.held && t.held[node].rounds == Without(c.rounds, i) && t.held[node].blocks == c.blocks
            && t.forwards > s.forwards && t.forwards + Saved(t.held[node]) == s.forwards + c.rounds[i].read
            && Total(false, t, 0) + Worth(false, c) >= Total(false, s, 0) + Worth(false, t.held[node])
  {
    hide HeldSum, Outgoing, OfMessage, OfOrphan, Claimed, Select;
    var c := s.held[node];
    var f := c.rounds[i];
    SelectConserves(false, f.read, f.candidates, true, 0);
    SelectsIfLive(false, f, c.blocks, true, 0);
    FinishTotal(false, s, Finish(node, i, true, 0), OfCarrier(false, 0), OfMessage(0));
  }

  lemma UnsavedOverspends(s: Network, a: Action, origin: EndpointID)
    requires a.Begin? && Enabled(s, a) && BasicCarrier(a.node, s.held[a.node], origin)
    requires s.held[a.node].saved.None? && a.default > 0
    ensures var t := Run(false, Step(false, s, a), []);
            t.forwards + Total(false, t, 0) > s.forwards + Total(false, s, 0)
  {
    hide Total, FilterPeers, Unsprayed;
    var c := s.held[a.node];
    BegunTotal(false, s, a);
    NothingClaimed(false, c.rounds, c.blocks);
    assert Run(false, Step(false, s, a), []) == Step(false, s, a);
  }

  /** The origin has two live forwardings, and both spend all it has. */
  lemma BothSpend(s: Network, a: Action, origin: EndpointID, i: nat) returns (actions: seq<Action>)
    requires a.Begin? && Enabled(s, a) && BasicCarrier(a.node, s.held[a.node], origin) && i < |s.held[a.node].rounds|
    requires var c := s.held[a.node];
             Live(false, c.rounds[i], c.blocks) && Live(false, Begun(c, a.peers, a.default), c.blocks)
    ensures AllGuarded(false, Step(false, s, a), actions)
    ensures var t := Run(false, Step(false, s, a), actions);
            t.forwards + Total(false, t, 0) > s.forwards + Total(false, s, 0)
  {
    hide Total, FilterPeers, Unsprayed, Run, Claimed, AllGuarded, Step, NotAmong;
    var c := s.held[a.node];
    var d := Started(c, a.peers, a.default);
    var q := |c.rounds|;
    assert c.rounds[i] in c.rounds;
    BegunTotal(false, s, a);
    assert d.rounds[i] == c.rounds[i] && d.rounds[q] == Begun(c, a.peers, a.default);
    ClaimedWithout(false, c, i);
    var first, second := Finish(a.node, i, true, 0), Finish(a.node, q - 1, true, 0);
    actions := [first, second];
    var t := Step(false, s, a);
    FinishSpends(t, a.node, i);
    var u := Step(false, t, first);
    assert u.held[a.node].rounds[q - 1] == d.rounds[q];
    FinishSpends(u, a.node, q - 1);
    RunPair(false, t, first, second);
    FinishingIsGuarded(false, t, first, second);
  }

  lemma BasicBeginExactly(s: Network, a: Action, origin: EndpointID, copies: nat)
    requires a.Begin? && Enabled(s, a) && Basic(s, origin, copies)
    ensures NeverOverspends(Step(false, s, a), s.forwards + Total(false, s, 0)) <==> Guarded(false, s, a)
  {
    hide Total, Run, AllGuarded, Step, BasicOrphan, BasicMessage, Unsprayed, Live, FilterPeers, NotAmong;
    var t := Step(false, s, a);
    var c := s.held[a.node];
    assert BasicCarrier(a.node, c, origin);
    if Guarded(false, s, a) {
      StepBasic(s, a, origin, copies);
      forall actions | AllGuarded(false, t, actions)
        ensures Run(false, t, actions).forwards + Total(false, Run(false, t, actions), 0) <= s.forwards + Total(false, s, 0)
      {
        RunBasic(t, actions, origin, copies);
      }
    } else if c.saved.None? && a.default > 0 {
      UnsavedOverspends(s, a, origin);
      NothingIsGuarded(false, t);
    } else {
      var f :| f in c.rounds && Live(false, f, c.blocks);
      var i :| 0 <= i < |c.rounds| && c.rounds[i] == f;
      var actions := BothSpend(s, a, origin, i);
    }
  }

  lemma NothingIsGuarded(binary: bool, s: Network)
    ensures AllGuarded(binary, s, [])
  {
  }

  /** The same in basic mode, with the peers selected and the copies left: they are never more than before exactly if copies
      were saved or none are assumed, and not both forwardings are live. */
  lemma OverspendsExactly(copies: uint64, origin: EndpointID, blocks: seq<CanonicalBlock>, actions: seq<Action>, a: Action)
    requires DistinctNumbers(blocks) && OfType(blocks, TYPE_BINARY_SPRAY) == []
    requires AllGuarded(false, New(copies, origin, blocks), actions)
    requires a.Begin? && Enabled(Run(false, New(copies, origin, blocks), actions), a)
    ensures var s := Run(false, New(copies, origin, blocks), actions);
            NeverOverspends(Step(false, s, a), s.forwards + Total(false, s, 0)) <==> Guarded(false, s, a)
  {
    hide OfType, DistinctNumbers, Run, Total, Step, Enabled, Guarded, AllGuarded, NeverOverspends;
    NewTotal(false, copies, origin, blocks, 0);
    RunBasic(New(copies, origin, blocks), actions, origin, copies);
    BasicBeginExactly(Run(false, New(copies, origin, blocks), actions), a, origin, copies);
  }
}
