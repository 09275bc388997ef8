/** The retention state of a stored bundle: constraints, and deletion once none is left (section 5 of RFC 9171). */
module Retention {

  /** Constraints are numbers of eight bits; only the first three are known. */
  type Constraint = c: int | 0 <= c < 0x100

  const DISPATCH_PENDING: Constraint := 0
  const FORWARD_PENDING: Constraint := 1
  const REASSEMBLY_PENDING: Constraint := 2

  predicate KnownConstraint(c: Constraint) {
    c <= REASSEMBLY_PENDING
  }

  datatype State = State(constraints: seq<Constraint>, retain: bool, dispatch: bool, deleted: bool, shouldDelete: bool) {
    /** The answers of the accessor methods: a deleted bundle is neither retained nor dispatched. */
    predicate Retained() {
      retain && !deleted
    }

    predicate Dispatchable() {
      dispatch && !deleted
    }
  }

  datatype Error = BundleDeleted | InvalidConstraint | HasConstraints | NoError

  const FRESH := State([DISPATCH_PENDING], true, true, false, false)

  datatype Operation = Add(c: Constraint) | Remove(c: Constraint) | Reset | Delete(mark: bool)

  function Without(cs: seq<Constraint>, c: Constraint): (r: seq<Constraint>)
    ensures c !in r && forall x :: x in r <==> x in cs && x != c
  {
    if cs == [] then []
    else
      var n := |cs| - 1;
      assert cs == cs[..n] + [cs[n]];
      Without(cs[..n], c) + if cs[n] != c then [cs[n]] else []
  }

  function UnsafeDelete(s: State): (State, Error) {
    if s.deleted then (s, BundleDeleted) else (s.(deleted := true), NoError)
  }

  function AddConstraint(s: State, c: Constraint): (State, Error) {
    if s.deleted then (s, BundleDeleted)
    else if !KnownConstraint(c) then (s, InvalidConstraint)
    else (s.(constraints := s.constraints + [c], retain := true, dispatch := s.dispatch && c != FORWARD_PENDING), NoError)
  }

  /** Go on without constraints `cs`, and carry out a deletion that was waiting for that. */
  function Keep(s: State, cs: seq<Constraint>): State {
    var t := s.(constraints := cs, retain := cs != [], dispatch := FORWARD_PENDING !in cs);
    if !t.retain && t.shouldDelete then UnsafeDelete(t).0 else t
  }

  function Apply(s: State, op: Operation): (State, Error) {
    match op
    case Add(c) => AddConstraint(s, c)
    case Remove(c) => if s.deleted then (s, BundleDeleted) else (Keep(s, Without(s.constraints, c)), NoError)
    case Reset => if s.deleted then (s, BundleDeleted) else (Keep(s, []), NoError)
    case Delete(mark) =>
      if s.constraints != [] then
        if mark then (s.(shouldDelete := true), NoError) else (s, HasConstraints)
      else UnsafeDelete(s)
  }

  /** An operation that deletes the bundle starts its removal from the store, in the background. */
  predicate Spawns(s: State, op: Operation) {
    !s.deleted && Apply(s, op).0.deleted
  }

  function Run(s: State, ops: seq<Operation>): State
    decreases |ops|
  {
    if ops == [] then s else Run(Apply(s, ops[0]).0, ops[1..])
  }

  // ---------------------------------------------------------------- every run

  /** Retained iff constrained, dispatchable iff not being forwarded, deleted only without constraints, and a marked
      bundle lives on only because of its constraints. */
  ghost predicate Consistent(s: State) {
    && (s.retain <==> s.constraints != [])
    && (s.dispatch <==> FORWARD_PENDING !in s.constraints)
    && (s.deleted ==> s.constraints == [])
    && (s.shouldDelete && !s.deleted ==> s.constraints != [])
  }

  lemma ApplyConsistent(s: State, op: Operation)
    requires Consistent(s)
    ensures Consistent(Apply(s, op).0)
  {
    hide Without;
    if op.Add? && !s.deleted {
      assert FORWARD_PENDING in s.constraints + [op.c] <==> FORWARD_PENDING in s.constraints || op.c == FORWARD_PENDING;
    }
  }

  lemma {:induction false} RunConsistent(s: State, ops: seq<Operation>)
    requires Consistent(s)
    ensures Consistent(Run(s, ops))
    decreases |ops|
  {
    hide Consistent;
    if ops != [] {
      ApplyConsistent(s, ops[0]);
      RunConsistent(Apply(s, ops[0]).0, ops[1..]);
    }
  }

  /** An operation deletes the bundle exactly if it leaves no constraint and either is Delete or had been preceded by a
      marking Delete. A bundle that keeps a constraint is never deleted, and nothing brings a deleted one back. */
  lemma DeletedExactly(ops: seq<Operation>, op: Operation)
    ensures var s := Run(FRESH, ops);
            var t := Apply(s, op).0;
            && (s.deleted ==> t == s)
            && (!s.deleted ==> (t.deleted <==> t.constraints == [] && (op.Delete? || s.shouldDelete)))
  {
    hide Run, Without;
    var s := Run(FRESH, ops);
    assert Consistent(s) by {
      assert FORWARD_PENDING !in FRESH.constraints;
      RunConsistent(FRESH, ops);
    }
  }

  /** What the accessors say after any run: a bundle is offered for dispatch iff it is neither deleted nor marked as being
      forwarded, and retained iff it has constraints. */
  lemma AccessorsExactly(ops: seq<Operation>)
    ensures Run(FRESH, ops).Dispatchable() <==> FORWARD_PENDING !in Run(FRESH, ops).constraints && !Run(FRESH, ops).deleted
    ensures Run(FRESH, ops).Retained() <==> Run(FRESH, ops).constraints != []
  {
    hide Run;
    assert FORWARD_PENDING !in FRESH.constraints;
    RunConsistent(FRESH, ops);
  }

  /** What was asked for happens: once marked, the bundle is gone as soon as its constraints are. */
  lemma {:induction false} MarkedIsDeleted(s: State, ops: seq<Operation>)
    requires Consistent(s) && s.shouldDelete
    ensures Run(s, ops).deleted <==> Run(s, ops).constraints == []
    decreases |ops|
  {
    hide Without;
    if ops == [] {
    } else {
      ApplyConsistent(s, ops[0]);
      MarkedIsDeleted(Apply(s, ops[0]).0, ops[1..]);
    }
  }

  // ---------------------------------------------------------------- the mark of a forwarding

  lemma {:induction false} RunAppend(s: State, ops: seq<Operation>, op: Operation)
    ensures Run(s, ops + [op]) == Apply(Run(s, ops), op).0
    decreases |ops|
  {
    hide Apply;
    if ops == [] {
      assert ([] + [op])[1..] == [];
      assert Run(Apply(s, op).0, []) == Apply(s, op).0;
    } else {
      assert (ops + [op])[1..] == ops[1..] + [op];
      RunAppend(Apply(s, ops[0]).0, ops[1..], op);
    }
  }

  /** Of the operations that set or take away the mark, the last one sets it. */
  predicate LastSetsMark(ops: seq<Operation>) {
    ops != [] &&
    var op := ops[|ops| - 1];
    op == Add(FORWARD_PENDING) || (op != Remove(FORWARD_PENDING) && op != Reset && LastSetsMark(ops[..|ops| - 1]))
  }

  lemma MarkAfter(s: State, op: Operation)
    requires Consistent(s)
    ensures var t := Apply(s, op).0;
            var sets, takes := op == Add(FORWARD_PENDING), op == Remove(FORWARD_PENDING) || op == Reset;
            !t.deleted ==> !s.deleted && (FORWARD_PENDING in t.constraints <==> sets || (!takes && FORWARD_PENDING in s.constraints))
  {
    hide Without;
    if op.Add? && !s.deleted {
      assert FORWARD_PENDING in s.constraints + [op.c] <==> FORWARD_PENDING in s.constraints || op.c == FORWARD_PENDING;
    }
  }

  /** The constraints that the operations leave, as long as the bundle lives. */
  function Left(ops: seq<Operation>): seq<Constraint> {
    if ops == [] then [0]
    else
      var before := Left(ops[..|ops| - 1]);
      match ops[|ops| - 1]
      case Add(c) => if c <= 2 then before + [c] else before
      case Remove(c) => Without(before, c)
      case Reset => []
      case Delete(_) => before
  }

  /** The operation at `k` deletes, or an earlier one marked the bundle for deletion. */
  predicate AskedFor(ops: seq<Operation>, k: nat)
    requires k < |ops|
  {
    ops[k].Delete? || Delete(true) in ops[..k]
  }

  /** Deletion was asked for, and no constraint was left, when the operation at `k` was done. */
  predicate DeletedAt(ops: seq<Operation>, k: nat)
    requires k < |ops|
  {
    AskedFor(ops, k) && Left(ops[..k + 1]) == []
  }

  lemma DeletedEarlier(ops: seq<Operation>)
    requires ops != []
    ensures var n := |ops| - 1;
            (exists k :: 0 <= k < |ops| && DeletedAt(ops, k)) <==>
              (exists k :: 0 <= k < n && DeletedAt(ops[..n], k)) || (Left(ops) == [] && (ops[n].Delete? || Delete(true) in ops[..n]))
  {
    hide Left;
    var n := |ops| - 1;
    forall k | 0 <= k < n ensures DeletedAt(ops, k) <==> DeletedAt(ops[..n], k) {
      assert ops[..n][..k] == ops[..k] && ops[..n][..k + 1] == ops[..k + 1];
    }
    assert ops[..n + 1] == ops;
    assert DeletedAt(ops, n) <==> Left(ops) == [] && (ops[n].Delete? || Delete(true) in ops[..n]);
  }

  /** From the operations alone: a bundle is deleted exactly if at some operation deletion had been asked for and no constraint
      was left. Until then it has the constraints that were added and not removed, and is marked if a marking Delete came. */
  lemma {:induction false} DeletedByOperations(ops: seq<Operation>)
    ensures var s := Run(FRESH, ops);
            && (s.deleted <==> exists k :: 0 <= k < |ops| && DeletedAt(ops, k))
            && (!s.deleted ==> s.constraints == Left(ops) && (s.shouldDelete <==> Delete(true) in ops))
  {
    hide Run, DeletedAt, Without;
    if ops == [] {
      RunNothing(FRESH);
    } else {
      var n := |ops| - 1;
      DeletedByOperations(ops[..n]);
      RunAppend(FRESH, ops[..n], ops[n]);
      assert ops == ops[..n] + [ops[n]];
      assert FORWARD_PENDING !in FRESH.constraints;
      RunConsistent(FRESH, ops[..n]);
      DeletedEarlier(ops);
    }
  }

  /** What the methods report, and that an operation that fails changes nothing. */
  lemma ErrorExactly(s: State, op: Operation)
    requires Consistent(s)
    ensures var (t, e) := Apply(s, op);
            && (e == BundleDeleted <==> s.deleted)
            && (e == InvalidConstraint <==> !s.deleted && op.Add? && op.c > 2)
            && (e == HasConstraints <==> op == Delete(false) && s.constraints != [])
            && (e != NoError ==> t == s)
  {
    hide Without;
  }

  /** After any operations, in any interleaving, a bundle has the forward pending mark exactly if it is not deleted and the
      last operation that sets the mark or takes it away sets it, however often it was set before. */
  lemma {:induction false} MarkedExactly(ops: seq<Operation>)
    ensures var s := Run(FRESH, ops);
            FORWARD_PENDING in s.constraints <==> !s.deleted && LastSetsMark(ops)
  {
    hide Apply, Run;
    assert FORWARD_PENDING !in FRESH.constraints;
    RunConsistent(FRESH, ops);
    if ops == [] {
      assert Run(FRESH, []) == FRESH by { RunNothing(FRESH); }
    } else {
      var n := |ops| - 1;
      MarkedExactly(ops[..n]);
      RunConsistent(FRESH, ops[..n]);
      assert ops == ops[..n] + [ops[n]];
      RunAppend(FRESH, ops[..n], ops[n]);
      MarkAfter(Run(FRESH, ops[..n]), ops[n]);
    }
  }

  lemma RunNothing(s: State)
    ensures Run(s, []) == s
  {
  }

  /** What happens to a bundle that only gets forwarded: forwardings begin, and forwardings end with their transmissions. A
      beginning is two locked sections, taken together here. What falls between them, and a forwarding that ends with all
      constraints reset because there is nobody to send to, are covered by MarkedExactly, which is about single ones. */
  datatype Event = Begin | End

  function OperationsOf(events: seq<Event>): seq<Operation> {
    if events == [] then []
    else
      var n := |events| - 1;
      OperationsOf(events[..n])
      + if events[n].Begin? then [Add(FORWARD_PENDING)] + [Remove(DISPATCH_PENDING)] else [Remove(FORWARD_PENDING)]
  }

  /** Forwardings going on: those begun and not ended. */
  function Ongoing(events: seq<Event>): int {
    if events == [] then 0 else Ongoing(events[..|events| - 1]) + if events[|events| - 1].Begin? then 1 else -1
  }

  /** No more forwardings end than have begun. */
  ghost predicate Possible(events: seq<Event>) {
    forall k :: 0 <= k <= |events| ==> Ongoing(events[..k]) >= 0
  }

  predicate LatestBegins(events: seq<Event>) {
    events != [] && events[|events| - 1].Begin?
  }

  /** Such a bundle is never deleted. Once forwarded, it has at most the forward pending constraint. */
  ghost predicate OnlyForwarded(s: State, begun: bool) {
    && !s.deleted && !s.shouldDelete
    && forall c :: c in s.constraints ==> c == FORWARD_PENDING || (c == DISPATCH_PENDING && !begun)
  }

  lemma EventStep(s: State, e: Event, begun: bool)
    requires OnlyForwarded(s, begun)
    ensures e.Begin? ==> OnlyForwarded(Apply(Apply(s, Add(FORWARD_PENDING)).0, Remove(DISPATCH_PENDING)).0, true)
    ensures e.End? ==> OnlyForwarded(Apply(s, Remove(FORWARD_PENDING)).0, begun)
  {
    hide Without;
  }

  lemma {:induction false} EventsOnlyForward(events: seq<Event>)
    ensures OnlyForwarded(Run(FRESH, OperationsOf(events)), Begin in events)
    ensures LastSetsMark(OperationsOf(events)) <==> LatestBegins(events)
  {
    hide Apply, OnlyForwarded, Run;
    if events == [] {
      RunNothing(FRESH);
      assert OnlyForwarded(FRESH, false) by { FreshIsOnlyForwarded(); }
    } else {
      var n := |events| - 1;
      var ops := OperationsOf(events[..n]);
      EventsOnlyForward(events[..n]);
      assert events == events[..n] + [events[n]];
      EventStep(Run(FRESH, ops), events[n], Begin in events[..n]);
      if events[n].Begin? {
        RunAppend(FRESH, ops, Add(FORWARD_PENDING));
        RunAppend(FRESH, ops + [Add(FORWARD_PENDING)], Remove(DISPATCH_PENDING));
        assert OperationsOf(events) == ops + [Add(FORWARD_PENDING)] + [Remove(DISPATCH_PENDING)];
        LastOfTwo(ops);
      } else {
        RunAppend(FRESH, ops, Remove(FORWARD_PENDING));
      }
    }
  }

  lemma FreshIsOnlyForwarded()
    ensures OnlyForwarded(FRESH, false)
  {
  }

  lemma LastOfTwo(ops: seq<Operation>)
    ensures LastSetsMark(ops + [Add(FORWARD_PENDING)] + [Remove(DISPATCH_PENDING)])
  {
    var all := ops + [Add(FORWARD_PENDING)] + [Remove(DISPATCH_PENDING)];
    assert all[..|all| - 1] == ops + [Add(FORWARD_PENDING)];
  }

  /** However forwardings of a bundle overlap, it is marked exactly if the latest event is a beginning. It may be dispatched
      exactly if it is not marked, and once forwarded it is retained exactly if it is. */
  lemma ForwardingMark(events: seq<Event>)
    ensures var s := Run(FRESH, OperationsOf(events));
            && (FORWARD_PENDING in s.constraints <==> LatestBegins(events))
            && (s.Dispatchable() <==> !LatestBegins(events))
            && (Begin in events ==> (s.Retained() <==> LatestBegins(events)))
  {
    hide Run, OperationsOf, LastSetsMark, LatestBegins;
    var ops := OperationsOf(events);
    MarkedExactly(ops);
    AccessorsExactly(ops);
    EventsOnlyForward(events);
    var s := Run(FRESH, ops);
    if Begin in events && s.constraints != [] {
      assert s.constraints[0] in s.constraints;
    }
  }

  /** The mark tells whether the bundle is being forwarded, unless a forwarding has just ended while another one goes on:
      constraints are not counted, so the first end takes away the mark of all. */
  lemma MarkIsRightExactly(events: seq<Event>)
    requires Possible(events)
    ensures (FORWARD_PENDING in Run(FRESH, OperationsOf(events)).constraints <==> Ongoing(events) > 0)
      <==> LatestBegins(events) || Ongoing(events) == 0
  {
    hide Run, OperationsOf;
    ForwardingMark(events);
    assert events[..|events|] == events;
    if LatestBegins(events) {
      assert Ongoing(events[..|events| - 1]) >= 0;
    }
  }

  /** As long as forwardings do not overlap, the mark is right. */
  lemma SequentialIsMarked(events: seq<Event>)
    requires Possible(events) && forall k :: 0 <= k <= |events| ==> Ongoing(events[..k]) <= 1
    ensures FORWARD_PENDING in Run(FRESH, OperationsOf(events)).constraints <==> Ongoing(events) > 0
  {
    hide Run, OperationsOf;
    MarkIsRightExactly(events);
    assert events[..|events|] == events;
    if events != [] {
      assert Ongoing(events[..|events| - 1]) <= 1;
    }
  }

  /** The smallest case that goes wrong: of two overlapping forwardings the first one has ended. The bundle may be dispatched
      again, and garbage collected, while the second one is still going on. */
  lemma OverlappingForwardings()
    ensures var events := [Begin, Begin, End];
            var s := Run(FRESH, OperationsOf(events));
            Ongoing(events) == 1 && s.Dispatchable() && !s.Retained()
  {
    hide Run, OperationsOf;
    var events := [Begin, Begin, End];
    assert events[..2] == [Begin, Begin] && [Begin, Begin][..1] == [Begin] && [Begin][..0] == [];
    assert Begin in events;
    ForwardingMark(events);
  }
}
