/** What a node changes in a bundle before it sends it on: the spray block and the previous node block. */
module Forwarding {
  import opened Bytes
  import opened Endpoint
  import opened Blocks
  import opened Sorting
  import opened Numbering

  /** All blocks but those of one type. */
  function Others(blocks: seq<CanonicalBlock>, code: uint64): (r: seq<CanonicalBlock>)
    ensures |r| <= |blocks|
  {
    if blocks == [] then []
    else
      var n := |blocks| - 1;
      Others(blocks[..n], code) + if blocks[n].TypeCode() != code then [blocks[n]] else []
  }

  lemma {:induction false} OthersMembers(blocks: seq<CanonicalBlock>, code: uint64)
    ensures forall cb :: cb in Others(blocks, code) <==> cb in blocks && cb.TypeCode() != code
  {
    if blocks != [] {
      var n := |blocks| - 1;
      OthersMembers(blocks[..n], code);
      assert blocks == blocks[..n] + [blocks[n]];
    }
  }

  // ---------------------------------------------------------------- removing through pointers

  /** A slice of the first `len` slots of an array. Removing a block moves the ones behind it one slot down; the slots
      past the new end keep what they held. */
  datatype Slice = Slice(slots: seq<CanonicalBlock>, len: nat) {
    ghost predicate Valid() {
      len <= |slots|
    }

    function Blocks(): seq<CanonicalBlock>
      requires len <= |slots|
    {
      slots[..len]
    }
  }

  function RemoveAt(s: Slice, i: nat): (r: Slice)
    requires s.Valid() && i < s.len
    ensures r.Valid() && |r.slots| == |s.slots| && r.len == s.len - 1
    ensures r.Blocks() == s.Blocks()[..i] + s.Blocks()[i + 1..]
  {
    Slice(s.slots[..i] + s.slots[i + 1..s.len] + s.slots[s.len - 1..], s.len - 1)
  }

  /** Position of the first block with a number, or |blocks|. */
  function IndexOfNumber(blocks: seq<CanonicalBlock>, number: uint64): (i: nat)
    ensures i <= |blocks|
    ensures i < |blocks| ==> blocks[i].number == number
    ensures forall j :: 0 <= j < i ==> blocks[j].number != number
  {
    if blocks == [] || blocks[0].number == number then 0 else 1 + IndexOfNumber(blocks[1..], number)
  }

  /** RemoveExtensionBlockByBlockNumber with the number read through a pointer to slot `p`. */
  function RemoveThrough(s: Slice, p: nat): (r: Slice)
    requires s.Valid() && p < |s.slots|
    ensures r.Valid() && |r.slots| == |s.slots|
  {
    var i := IndexOfNumber(s.Blocks(), s.slots[p].number);
    if i == s.len then s else RemoveAt(s, i)
  }

  function RemoveThroughAll(s: Slice, ps: seq<nat>): (r: Slice)
    requires s.Valid() && forall k :: 0 <= k < |ps| ==> ps[k] < |s.slots|
    ensures r.Valid() && |r.slots| == |s.slots|
    decreases |ps|
  {
    if ps == [] then s else RemoveThroughAll(RemoveThrough(s, ps[0]), ps[1..])
  }

  /** Pointers to the blocks of one type, in order. */
  function Pointers(blocks: seq<CanonicalBlock>, code: uint64): (ps: seq<nat>)
    ensures forall k :: 0 <= k < |ps| ==> ps[k] < |blocks| && blocks[ps[k]].TypeCode() == code
    ensures forall j, k :: 0 <= j < k < |ps| ==> ps[j] < ps[k]
    ensures forall i :: 0 <= i < |blocks| && blocks[i].TypeCode() == code ==> i in ps
    ensures |ps| <= |blocks|
  {
    if blocks == [] then []
    else
      var n := |blocks| - 1;
      Pointers(blocks[..n], code) + if blocks[n].TypeCode() == code then [n] else []
  }

  /** The extension blocks after all blocks of one type were removed the way selectBinarySpray does it. */
  function RemoveType(blocks: seq<CanonicalBlock>, code: uint64): seq<CanonicalBlock> {
    RemoveThroughAll(Slice(blocks, |blocks|), Pointers(blocks, code)).Blocks()
  }

  // ---------------------------------------------------------------- when that is right

  lemma {:induction false} OthersOf(blocks: seq<CanonicalBlock>, code: uint64, i: nat)
    requires i < |blocks| && blocks[i].TypeCode() == code
    ensures Others(blocks, code) == Others(blocks[..i] + blocks[i + 1..], code)
  {
    var n := |blocks| - 1;
    var left := blocks[..i] + blocks[i + 1..];
    if i < n {
      OthersOf(blocks[..n], code, i);
      assert left[..n - 1] == blocks[..n][..i] + blocks[..n][i + 1..] && left[n - 1] == blocks[n];
    } else {
      assert left == blocks[..n];
    }
  }

  lemma {:induction false} NoneOf(blocks: seq<CanonicalBlock>, code: uint64)
    requires forall i :: 0 <= i < |blocks| ==> blocks[i].TypeCode() != code
    ensures Others(blocks, code) == blocks
  {
    if blocks != [] {
      NoneOf(blocks[..|blocks| - 1], code);
    }
  }

  /** Without the only block of its type, none is left. */
  lemma WithoutOnly(blocks: seq<CanonicalBlock>, code: uint64, p: nat)
    requires p < |blocks| && blocks[p].TypeCode() == code
    requires forall i :: 0 <= i < |blocks| && blocks[i].TypeCode() == code ==> i == p
    ensures Others(blocks, code) == blocks[..p] + blocks[p + 1..]
  {
    var left := blocks[..p] + blocks[p + 1..];
    OthersOf(blocks, code, p);
    forall i | 0 <= i < |left| ensures left[i].TypeCode() != code {
      assert left[i] == blocks[if i < p then i else i + 1];
    }
    NoneOf(left, code);
  }

  /** The first pointer still points at its block. */
  lemma FirstRemoval(blocks: seq<CanonicalBlock>, p: nat)
    requires p < |blocks| && DistinctNumbers(blocks)
    ensures RemoveThrough(Slice(blocks, |blocks|), p) == RemoveAt(Slice(blocks, |blocks|), p)
  {
    assert blocks[..|blocks|] == blocks;
    var i := IndexOfNumber(blocks, blocks[p].number);
    assert i == p;
  }

  ghost predicate Later(blocks: seq<CanonicalBlock>, cb: CanonicalBlock, p: nat) {
    exists t :: p <= t < |blocks| && blocks[t] == cb
  }

  /** Blocks only ever move to lower slots, and the block at `q` is still among them. */
  ghost predicate Survives(blocks: seq<CanonicalBlock>, s: Slice, q: nat)
    requires q < |blocks|
  {
    && s.Valid() && |s.slots| == |blocks|
    && (forall p :: 0 <= p < |blocks| ==> Later(blocks, s.slots[p], p))
    && blocks[q] in s.Blocks()
  }

  lemma RemoveAtMoves(blocks: seq<CanonicalBlock>, s: Slice, i: nat)
    requires s.Valid() && |s.slots| == |blocks| && i < s.len
    requires forall p :: 0 <= p < |blocks| ==> Later(blocks, s.slots[p], p)
    ensures forall p :: 0 <= p < |blocks| ==> Later(blocks, RemoveAt(s, i).slots[p], p)
  {
    var r := RemoveAt(s, i);
    forall p | 0 <= p < |blocks| ensures Later(blocks, r.slots[p], p) {
      var from := if i <= p < s.len - 1 then p + 1 else p;
      assert r.slots[p] == s.slots[from];
      var t :| from <= t < |blocks| && blocks[t] == s.slots[from];
    }
  }

  lemma LaterDiffers(blocks: seq<CanonicalBlock>, cb: CanonicalBlock, q: nat, p: nat)
    requires q < p && q < |blocks| && DistinctNumbers(blocks) && Later(blocks, cb, p)
    ensures cb.number != blocks[q].number
  {
  }

  lemma RemoveAtKeeps(s: Slice, i: nat, cb: CanonicalBlock)
    requires s.Valid() && i < s.len && cb in s.Blocks() && s.slots[i] != cb
    ensures cb in RemoveAt(s, i).Blocks()
  {
    hide RemoveAt;
    var j :| 0 <= j < s.len && s.Blocks()[j] == cb;
    assert RemoveAt(s, i).Blocks()[if j < i then j else j - 1] == cb;
  }

  /** A removal through a slot that holds another block than the one at `q` leaves that one. */
  lemma SurvivesOther(blocks: seq<CanonicalBlock>, s: Slice, q: nat, p: nat)
    requires q < |blocks| && p < |blocks| && Survives(blocks, s, q) && s.slots[p].number != blocks[q].number
    ensures Survives(blocks, RemoveThrough(s, p), q)
  {
    hide RemoveAt, Later;
    var i := IndexOfNumber(s.Blocks(), s.slots[p].number);
    if i < s.len {
      RemoveAtMoves(blocks, s, i);
      assert s.Blocks()[i] == s.slots[i];
      RemoveAtKeeps(s, i, blocks[q]);
    }
  }

  /** A removal through a pointer behind `q` takes another block than the one at `q`. */
  lemma SurvivesRemoval(blocks: seq<CanonicalBlock>, s: Slice, q: nat, p: nat)
    requires q < p < |blocks| && DistinctNumbers(blocks) && Survives(blocks, s, q)
    ensures Survives(blocks, RemoveThrough(s, p), q)
  {
    hide RemoveThrough, DistinctNumbers, Later;
    LaterDiffers(blocks, s.slots[p], q, p);
    SurvivesOther(blocks, s, q, p);
  }

  lemma {:induction false} SurvivesAll(blocks: seq<CanonicalBlock>, s: Slice, q: nat, ps: seq<nat>)
    requires q < |blocks| && DistinctNumbers(blocks) && Survives(blocks, s, q)
    requires forall k :: 0 <= k < |ps| ==> q < ps[k] < |blocks|
    ensures Survives(blocks, RemoveThroughAll(s, ps), q)
    decreases |ps|
  {
    hide RemoveThrough;
    if ps != [] {
      SurvivesRemoval(blocks, s, q, ps[0]);
      SurvivesAll(blocks, RemoveThrough(s, ps[0]), q, ps[1..]);
    }
  }

  lemma AllLater(blocks: seq<CanonicalBlock>)
    ensures forall x :: 0 <= x < |blocks| ==> Later(blocks, blocks[x], x)
  {
  }

  lemma AfterFirst(blocks: seq<CanonicalBlock>, p: nat, q: nat)
    requires p < q < |blocks|
    ensures Survives(blocks, RemoveAt(Slice(blocks, |blocks|), p), q)
  {
    hide Later, RemoveAt;
    var s := Slice(blocks, |blocks|);
    AllLater(blocks);
    RemoveAtMoves(blocks, s, p);
    assert RemoveAt(s, p).Blocks()[q - 1] == blocks[q];
  }

  lemma SecondSlot(blocks: seq<CanonicalBlock>, p: nat, q: nat)
    requires p < q < |blocks|
    ensures RemoveAt(Slice(blocks, |blocks|), p).slots[q] == blocks[if q == |blocks| - 1 then q else q + 1]
  {
  }

  /** The second pointer misses its block, unless that is the last one. */
  lemma SecondRemovalMisses(blocks: seq<CanonicalBlock>, p: nat, q: nat)
    requires p < q < |blocks| - 1 && DistinctNumbers(blocks)
    ensures var s := RemoveAt(Slice(blocks, |blocks|), p); Survives(blocks, RemoveThrough(s, q), q)
  {
    hide RemoveAt, RemoveThrough, Survives;
    AfterFirst(blocks, p, q);
    SecondSlot(blocks, p, q);
    SurvivesOther(blocks, RemoveAt(Slice(blocks, |blocks|), p), q, q);
  }

  lemma SecondIsLast(blocks: seq<CanonicalBlock>, p: nat)
    requires p < |blocks| - 1 && DistinctNumbers(blocks)
    ensures var s := RemoveAt(Slice(blocks, |blocks|), p);
            RemoveThrough(s, |blocks| - 1) == RemoveAt(s, |blocks| - 2)
  {
    hide RemoveAt;
    var n := |blocks|;
    SecondSlot(blocks, p, n - 1);
    var s := RemoveAt(Slice(blocks, n), p);
    assert s.Blocks()[n - 2] == blocks[n - 1];
    var i := IndexOfNumber(s.Blocks(), blocks[n - 1].number);
    assert i >= n - 2 by { EarlierNumbers(blocks, p); }
  }

  lemma EarlierNumbers(blocks: seq<CanonicalBlock>, p: nat)
    requires p < |blocks| - 1 && DistinctNumbers(blocks)
    ensures var bs := RemoveAt(Slice(blocks, |blocks|), p).Blocks();
            |bs| == |blocks| - 1 && forall j :: 0 <= j < |blocks| - 2 ==> bs[j].number != blocks[|blocks| - 1].number
  {
    hide RemoveAt;
    var bs := RemoveAt(Slice(blocks, |blocks|), p).Blocks();
    forall j | 0 <= j < |blocks| - 2 ensures bs[j].number != blocks[|blocks| - 1].number {
      assert bs[j] == if j < p then blocks[j] else blocks[j + 1];
    }
  }

  lemma OnePointer(blocks: seq<CanonicalBlock>, code: uint64)
    requires DistinctNumbers(blocks) && |Pointers(blocks, code)| == 1
    ensures RemoveType(blocks, code) == Others(blocks, code)
  {
    hide RemoveAt, RemoveThrough, DistinctNumbers, Others, Pointers;
    var ps := Pointers(blocks, code);
    FirstRemoval(blocks, ps[0]);
    assert Slice(blocks, |blocks|).Blocks() == blocks;
    WithoutOnly(blocks, code, ps[0]);
    var s := RemoveAt(Slice(blocks, |blocks|), ps[0]);
    assert ps[1..] == [] && RemoveThroughAll(s, []) == s;
    assert RemoveThroughAll(Slice(blocks, |blocks|), ps) == RemoveThroughAll(s, ps[1..]);
  }

  lemma LastPointer(blocks: seq<CanonicalBlock>, code: uint64)
    requires DistinctNumbers(blocks) && |Pointers(blocks, code)| == 2 && Pointers(blocks, code)[1] == |blocks| - 1
    ensures RemoveType(blocks, code) == Others(blocks, code)
  {
    hide RemoveAt, RemoveThrough, DistinctNumbers, Others, Pointers;
    var n := |blocks|;
    var ps := Pointers(blocks, code);
    FirstRemoval(blocks, ps[0]);
    SecondIsLast(blocks, ps[0]);
    var s := RemoveAt(Slice(blocks, n), ps[0]);
    assert Slice(blocks, n).Blocks() == blocks;
    OthersOf(blocks, code, ps[0]);
    OnlyLast(blocks, code, ps[0]);
    assert ps[1..][1..] == [] && ps[1..][0] == n - 1;
    assert RemoveThroughAll(s, ps[1..]) == RemoveThroughAll(RemoveAt(s, n - 2), []);
  }

  lemma OnlyLast(blocks: seq<CanonicalBlock>, code: uint64, p: nat)
    requires p < |blocks| - 1 && blocks[|blocks| - 1].TypeCode() == code
    requires forall i :: 0 <= i < |blocks| && blocks[i].TypeCode() == code ==> i == p || i == |blocks| - 1
    ensures var left := blocks[..p] + blocks[p + 1..];
            Others(left, code) == left[..|left| - 1] + left[|left|..]
  {
    var left := blocks[..p] + blocks[p + 1..];
    forall i | 0 <= i < |left| && left[i].TypeCode() == code ensures i == |left| - 1 {
      assert left[i] == blocks[if i < p then i else i + 1];
    }
    WithoutOnly(left, code, |left| - 1);
  }

  lemma MissedPointer(blocks: seq<CanonicalBlock>, code: uint64)
    requires DistinctNumbers(blocks) && |Pointers(blocks, code)| >= 2 && Pointers(blocks, code)[1] < |blocks| - 1
    ensures RemoveType(blocks, code) != Others(blocks, code)
  {
    hide RemoveAt, RemoveThrough, DistinctNumbers;
    var ps := Pointers(blocks, code);
    var p, q := ps[0], ps[1];
    FirstRemoval(blocks, p);
    SecondRemovalMisses(blocks, p, q);
    var s := RemoveThrough(RemoveAt(Slice(blocks, |blocks|), p), q);
    assert ps[1..][0] == q && ps[1..][1..] == ps[2..];
    SurvivesAll(blocks, s, q, ps[2..]);
    assert RemoveThroughAll(Slice(blocks, |blocks|), ps) == RemoveThroughAll(s, ps[2..]);
    OthersMembers(blocks, code);
  }

  /** Removing all blocks of a type through pointers taken beforehand removes just them exactly if there is at most one,
      or there are two and the second one is the last block of all. */
  lemma RemoveTypeExactly(blocks: seq<CanonicalBlock>, code: uint64)
    requires DistinctNumbers(blocks)
    ensures RemoveType(blocks, code) == Others(blocks, code) <==>
      |Pointers(blocks, code)| <= 1 || (|Pointers(blocks, code)| == 2 && blocks[|blocks| - 1].TypeCode() == code)
  {
    hide RemoveThrough, DistinctNumbers;
    var ps := Pointers(blocks, code);
    if ps == [] {
      NoneOf(blocks, code);
      assert blocks[..|blocks|] == blocks;
    } else if |ps| == 1 {
      OnePointer(blocks, code);
    } else if ps[1] == |blocks| - 1 {
      LastPointer(blocks, code);
    } else {
      MissedPointer(blocks, code);
    }
  }

  /** Two spray blocks before a previous node block: the previous node block is removed, and a spray block stays. */
  lemma WrongBlockRemoved(e: EndpointID)
    ensures var first := CanonicalBlock(2, 0, CRC_NO, [], BinarySpray(1));
            var second := CanonicalBlock(3, 0, CRC_NO, [], BinarySpray(1));
            var third := CanonicalBlock(4, 0, CRC_NO, [], PreviousNode(e));
            RemoveType([first, second, third], TYPE_BINARY_SPRAY) == [second]
  {
    var first := CanonicalBlock(2, 0, CRC_NO, [], BinarySpray(1));
    var second := CanonicalBlock(3, 0, CRC_NO, [], BinarySpray(1));
    var third := CanonicalBlock(4, 0, CRC_NO, [], PreviousNode(e));
    var blocks := [first, second, third];
    var ps := Pointers(blocks, TYPE_BINARY_SPRAY);
    assert blocks[0].TypeCode() == blocks[1].TypeCode() == TYPE_BINARY_SPRAY && 0 in ps && 1 in ps;
    assert 2 !in ps;
    assert ps == [0, 1];
    var s := RemoveThrough(Slice(blocks, 3), 0);
    assert s == Slice([second, third, third], 2);
    assert [0, 1][1..] == [1] && s.Blocks() == [second, third];
    var t := RemoveThrough(s, 1);
    assert t.Blocks() == [second];
    assert RemoveThroughAll(s, [1]) == RemoveThroughAll(t, []);
  }

  // ---------------------------------------------------------------- counting blocks of a type

  lemma {:induction false} OfTypeJoined(a: seq<CanonicalBlock>, b: seq<CanonicalBlock>, code: uint64)
    ensures OfType(a + b, code) == OfType(a, code) + OfType(b, code)
  {
    if a == [] {
      assert a + b == b;
    } else {
      assert (a + b)[1..] == a[1..] + b;
      OfTypeJoined(a[1..], b, code);
    }
  }

  lemma OfTypeSingle(cb: CanonicalBlock, code: uint64)
    ensures OfType([cb], code) == if cb.TypeCode() == code then [cb] else []
  {
    assert [cb][1..] == [] && OfType([], code) == [];
  }

  lemma {:induction false} OfTypeOccurrences(blocks: seq<CanonicalBlock>, code: uint64, cb: CanonicalBlock)
    ensures multiset(OfType(blocks, code))[cb] == if cb.TypeCode() == code then multiset(blocks)[cb] else 0
  {
    if blocks != [] {
      assert blocks == [blocks[0]] + blocks[1..];
      OfTypeOccurrences(blocks[1..], code, cb);
    }
  }

  /** The order of the blocks does not matter. */
  lemma OfTypePermuted(a: seq<CanonicalBlock>, b: seq<CanonicalBlock>, code: uint64)
    requires multiset(a) == multiset(b)
    ensures multiset(OfType(a, code)) == multiset(OfType(b, code))
  {
    hide OfType;
    forall cb ensures multiset(OfType(a, code))[cb] == multiset(OfType(b, code))[cb] {
      OfTypeOccurrences(a, code, cb);
      OfTypeOccurrences(b, code, cb);
    }
  }

  lemma {:induction false} CountPointers(blocks: seq<CanonicalBlock>, code: uint64)
    ensures |Pointers(blocks, code)| == |OfType(blocks, code)|
  {
    hide OfType;
    if blocks == [] {
      assert OfType([], code) == [] by { NoTypes(code); }
    } else {
      var n := |blocks| - 1;
      CountPointers(blocks[..n], code);
      OfTypeJoined(blocks[..n], [blocks[n]], code);
      OfTypeSingle(blocks[n], code);
      assert blocks == blocks[..n] + [blocks[n]];
    }
  }

  lemma NoTypes(code: uint64)
    ensures OfType([], code) == []
  {
  }

  /** Adding a block adds it to those of its type only. */
  lemma OfTypeAdded(blocks: seq<CanonicalBlock>, cb: CanonicalBlock, code: uint64)
    requires |blocks| <= MAX_BLOCKS
    ensures multiset(OfType(AddBlock(blocks, cb), code))
         == multiset(OfType(blocks, code)) + if cb.TypeCode() == code then multiset{Renumber(cb, blocks)} else multiset{}
  {
    hide OfType, AddBlock, Renumber;
    var added := Renumber(cb, blocks);
    assert added.TypeCode() == cb.TypeCode() by { RenumberedType(cb, blocks); }
    AddBlockMeaning(blocks, cb);
    OfTypePermuted(AddBlock(blocks, cb), blocks + [added], code);
    OfTypeJoined(blocks, [added], code);
    OfTypeSingle(added, code);
  }

  lemma RenumberedType(cb: CanonicalBlock, blocks: seq<CanonicalBlock>)
    requires |blocks| <= MAX_BLOCKS
    ensures Renumber(cb, blocks) == cb.(number := Renumber(cb, blocks).number)
  {
    hide LeastFree, Numbers;
  }

  // ---------------------------------------------------------------- the previous node block

  function PreviousNodeBlock(own: EndpointID): CanonicalBlock {
    CanonicalBlock(0, 0, CRC_NO, [], PreviousNode(own))
  }

  /** Without the previous node block, if there is exactly one. */
  function WithoutPrevious(blocks: seq<CanonicalBlock>): (r: seq<CanonicalBlock>)
    ensures |r| <= |blocks|
  {
    var cbs := OfType(blocks, TYPE_PREVIOUS_NODE);
    if |cbs| == 1 then
      RemoveNumberShorter(blocks, cbs[0].number);
      RemoveNumber(blocks, cbs[0].number)
    else blocks
  }

  lemma {:induction false} RemoveNumberShorter(blocks: seq<CanonicalBlock>, number: uint64)
    ensures |RemoveNumber(blocks, number)| <= |blocks|
  {
    if blocks != [] {
      RemoveNumberShorter(blocks[1..], number);
    }
  }

  /** The extension blocks a node sends: its own name replaces that of the previous node. */
  function WithPrevious(blocks: seq<CanonicalBlock>, own: EndpointID): seq<CanonicalBlock>
    requires |blocks| <= MAX_BLOCKS
  {
    AddBlock(WithoutPrevious(blocks), PreviousNodeBlock(own))
  }

  lemma PositionOf(blocks: seq<CanonicalBlock>, cb: CanonicalBlock) returns (k: nat)
    requires cb in blocks
    ensures k < |blocks| && blocks[k] == cb
  {
    k :| 0 <= k < |blocks| && blocks[k] == cb;
  }

  lemma OfTypeWithout(blocks: seq<CanonicalBlock>, k: nat, code: uint64)
    requires k < |blocks|
    ensures var left := multiset(OfType(blocks[..k] + blocks[k + 1..], code));
            multiset(OfType(blocks, code)) == left + if blocks[k].TypeCode() == code then multiset{blocks[k]} else multiset{}
  {
    hide OfType;
    assert blocks == blocks[..k] + ([blocks[k]] + blocks[k + 1..]);
    OfTypeJoined(blocks[..k], [blocks[k]] + blocks[k + 1..], code);
    OfTypeJoined([blocks[k]], blocks[k + 1..], code);
    OfTypeSingle(blocks[k], code);
    OfTypeJoined(blocks[..k], blocks[k + 1..], code);
  }

  lemma WithoutPreviousMeaning(blocks: seq<CanonicalBlock>, code: uint64)
    requires DistinctNumbers(blocks)
    ensures var before := OfType(blocks, code);
            var removed := code == TYPE_PREVIOUS_NODE && |before| == 1;
            multiset(OfType(WithoutPrevious(blocks), code)) == if removed then multiset{} else multiset(before)
    ensures DistinctNumbers(WithoutPrevious(blocks)) && forall cb :: cb in WithoutPrevious(blocks) ==> cb in blocks
  {
    hide OfType, RemoveNumber;
    var cbs := OfType(blocks, TYPE_PREVIOUS_NODE);
    if |cbs| == 1 {
      assert cbs[0] in cbs;
      var k := PositionOf(blocks, cbs[0]);
      RemoveNumberMeaning(blocks, k);
      OfTypeWithout(blocks, k, code);
      assert code == TYPE_PREVIOUS_NODE ==> OfType(blocks, code) == [cbs[0]];
    }
  }

  lemma OneOf<T>(s: seq<T>, x: T)
    ensures multiset(s) == multiset{x} <==> s == [x]
  {
    if multiset(s) == multiset{x} {
      assert |multiset(s)| == |s| == 1;
      assert s == [s[0]] && s[0] in multiset(s);
    }
  }

  lemma WithPreviousCounts(blocks: seq<CanonicalBlock>, own: EndpointID, code: uint64)
    requires DistinctNumbers(blocks) && |blocks| <= MAX_BLOCKS
    ensures var added := Renumber(PreviousNodeBlock(own), WithoutPrevious(blocks));
            var before, after := OfType(blocks, code), OfType(WithPrevious(blocks, own), code);
            && (code == TYPE_PREVIOUS_NODE ==> (after == [added] <==> |before| <= 1) && (|after| == 1 <==> |before| <= 1))
            && (code != TYPE_PREVIOUS_NODE ==> multiset(after) == multiset(before))
  {
    hide OfType, AddBlock, Renumber, WithoutPrevious;
    var added := Renumber(PreviousNodeBlock(own), WithoutPrevious(blocks));
    var before, after := OfType(blocks, code), OfType(WithPrevious(blocks, own), code);
    WithoutPreviousMeaning(blocks, code);
    OfTypeAdded(WithoutPrevious(blocks), PreviousNodeBlock(own), code);
    OneOf(after, added);
    assert |multiset(after)| == |after| && |multiset(before)| == |before|;
  }

  /** A block with this value, no flags and no checksum. */
  predicate IsBare(cb: CanonicalBlock, v: ExtensionBlock) {
    cb.value == v && cb.flags == 0 && cb.crcType == 0 && cb.crc == []
  }

  /** A forwarded bundle has exactly one previous node block, a bare one that names this node, exactly if it had at most one
      before. All other blocks stay, and block numbers stay distinct. */
  lemma PreviousNodeExactly(blocks: seq<CanonicalBlock>, own: EndpointID)
    requires DistinctNumbers(blocks) && |blocks| <= MAX_BLOCKS
    ensures var after := OfType(WithPrevious(blocks, own), TYPE_PREVIOUS_NODE);
            |after| == 1 && IsBare(after[0], PreviousNode(own)) <==> |OfType(blocks, TYPE_PREVIOUS_NODE)| <= 1
    ensures forall code: uint64 :: code != TYPE_PREVIOUS_NODE ==>
              multiset(OfType(WithPrevious(blocks, own), code)) == multiset(OfType(blocks, code))
    ensures DistinctNumbers(WithPrevious(blocks, own))
  {
    hide OfType, AddBlock, Renumber, WithoutPrevious;
    WithPreviousCounts(blocks, own, TYPE_PREVIOUS_NODE);
    RenumberedType(PreviousNodeBlock(own), WithoutPrevious(blocks));
    forall code: uint64 | code != TYPE_PREVIOUS_NODE
      ensures multiset(OfType(WithPrevious(blocks, own), code)) == multiset(OfType(blocks, code))
    {
      WithPreviousCounts(blocks, own, code);
    }
    WithoutPreviousMeaning(blocks, TYPE_PREVIOUS_NODE);
    AddBlockMeaning(WithoutPrevious(blocks), PreviousNodeBlock(own));
  }

  lemma WithPreviousMembers(blocks: seq<CanonicalBlock>, own: EndpointID)
    requires DistinctNumbers(blocks) && |blocks| <= MAX_BLOCKS
    ensures forall cb :: cb in WithPrevious(blocks, own) ==>
              cb in blocks || cb == Renumber(PreviousNodeBlock(own), WithoutPrevious(blocks))
  {
    hide OfType, AddBlock, Renumber, WithoutPrevious;
    var kept := WithoutPrevious(blocks);
    var added := Renumber(PreviousNodeBlock(own), kept);
    AddBlockMeaning(kept, PreviousNodeBlock(own));
    WithoutPreviousMeaning(blocks, TYPE_PREVIOUS_NODE);
    SameElements(WithPrevious(blocks, own), kept + [added]);
  }

  lemma SameAges(env: Env, b: Bundle, c: Bundle)
    requires b.primary == c.primary
    requires multiset(OfType(b.extensions, TYPE_BUNDLE_AGE)) == multiset(OfType(c.extensions, TYPE_BUNDLE_AGE))
    ensures TimeValid(env, b) <==> TimeValid(env, c)
  {
    hide OfType;
    var ages, others := OfType(b.extensions, TYPE_BUNDLE_AGE), OfType(c.extensions, TYPE_BUNDLE_AGE);
    assert |multiset(ages)| == |ages| && |multiset(others)| == |others|;
    if |ages| == 1 {
      assert ages == [ages[0]];
      OneOf(others, ages[0]);
    }
  }

  /** A valid bundle is still valid when a node with a valid name sends it on. */
  lemma ForwardedIsValid(env: Env, b: Bundle, own: EndpointID)
    requires CheckBundle(env, b) && Endpoint.CheckValid(own) && |b.extensions| <= MAX_BLOCKS
    requires |OfType(b.extensions, TYPE_PREVIOUS_NODE)| <= 1
    ensures CheckBundle(env, b.(extensions := WithPrevious(b.extensions, own)))
  {
    hide OfType, WithPrevious, Renumber, TimeValid, Endpoint.CheckValid, DistinctNumbers;
    var blocks := b.extensions;
    var r := WithPrevious(blocks, own);
    PreviousNodeExactly(blocks, own);
    WithPreviousMembers(blocks, own);
    RenumberedType(PreviousNodeBlock(own), WithoutPrevious(blocks));
    SameAges(env, b, b.(extensions := r));
    forall i | 0 <= i < |r| ensures r[i].CheckValid() && ContextValid(r, r[i].value) {
      assert r[i] in r;
      if r[i] in blocks {
        var k := PositionOf(blocks, r[i]);
        assert blocks[k].CheckValid() && ContextValid(blocks, blocks[k].value);
      }
      var code := r[i].TypeCode();
      assert |multiset(OfType(r, code))| == |OfType(r, code)| && |multiset(OfType(blocks, code))| == |OfType(blocks, code)|;
    }
  }

  // ---------------------------------------------------------------- the spray block

  function SprayBlock(copies: uint64): CanonicalBlock {
    CanonicalBlock(0, 0, CRC_NO, [], BinarySpray(copies))
  }

  lemma RemoveTypeShorter(blocks: seq<CanonicalBlock>, code: uint64)
    ensures |RemoveType(blocks, code)| <= |blocks|
  {
    hide RemoveThroughAll;
  }

  /** The extension blocks with the number of copies a peer is given, in place of earlier spray blocks. */
  function WithSpray(blocks: seq<CanonicalBlock>, copies: uint64): seq<CanonicalBlock>
    requires |blocks| <= MAX_BLOCKS
  {
    RemoveTypeShorter(blocks, TYPE_BINARY_SPRAY);
    AddBlock(RemoveType(blocks, TYPE_BINARY_SPRAY), SprayBlock(copies))
  }

  lemma OthersCounts(blocks: seq<CanonicalBlock>, removed: uint64, code: uint64)
    requires |OfType(blocks, removed)| <= 1 && DistinctNumbers(blocks)
    ensures var left := Others(blocks, removed);
            && multiset(OfType(left, code)) == (if code == removed then multiset{} else multiset(OfType(blocks, code)))
            && DistinctNumbers(left)
  {
    hide OfType, Others, Pointers;
    CountPointers(blocks, removed);
    var ps := Pointers(blocks, removed);
    if ps == [] {
      NoneOf(blocks, removed);
      assert code == removed ==> OfType(blocks, code) == [];
    } else {
      WithoutOnly(blocks, removed, ps[0]);
      OfTypeWithout(blocks, ps[0], code);
      var left := Others(blocks, removed);
      assert |multiset(OfType(blocks, removed))| == |OfType(blocks, removed)|;
      assert code == removed ==> |multiset(OfType(left, code))| == 0;
    }
  }

  /** With at most one spray block before, a sent bundle has exactly one, with the new number of copies; all other blocks
      stay, and block numbers stay distinct. */
  lemma SprayBlockReplaced(blocks: seq<CanonicalBlock>, copies: uint64)
    requires DistinctNumbers(blocks) && |blocks| <= MAX_BLOCKS && |OfType(blocks, TYPE_BINARY_SPRAY)| <= 1
    ensures var after := OfType(WithSpray(blocks, copies), TYPE_BINARY_SPRAY);
            |after| == 1 && IsBare(after[0], BinarySpray(copies))
    ensures forall code: uint64 :: code != TYPE_BINARY_SPRAY ==>
              multiset(OfType(WithSpray(blocks, copies), code)) == multiset(OfType(blocks, code))
    ensures DistinctNumbers(WithSpray(blocks, copies)) && |WithSpray(blocks, copies)| <= |blocks| + 1
  {
    hide OfType, AddBlock, Renumber, RemoveType, Others, DistinctNumbers;
    RemoveTypeShorter(blocks, TYPE_BINARY_SPRAY);
    CountPointers(blocks, TYPE_BINARY_SPRAY);
    RemoveTypeExactly(blocks, TYPE_BINARY_SPRAY);
    var left := Others(blocks, TYPE_BINARY_SPRAY);
    var added := Renumber(SprayBlock(copies), left);
    RenumberedType(SprayBlock(copies), left);
    OthersCounts(blocks, TYPE_BINARY_SPRAY, TYPE_BINARY_SPRAY);
    AddBlockMeaning(left, SprayBlock(copies));
    forall code: uint64
      ensures multiset(OfType(WithSpray(blocks, copies), code))
           == if code == TYPE_BINARY_SPRAY then multiset{added} else multiset(OfType(blocks, code))
    {
      OthersCounts(blocks, TYPE_BINARY_SPRAY, code);
      OfTypeAdded(left, SprayBlock(copies), code);
    }
    OneOf(OfType(WithSpray(blocks, copies), TYPE_BINARY_SPRAY), added);
  }

  /** What a receiver makes of the spray blocks: their copies, 0 if there is not exactly one, or a failed type assertion
      if the block type was not registered when the bundle was read. */
  datatype Received = Copies(n: uint64) | Panic

  function ReceivedCopies(blocks: seq<CanonicalBlock>): Received {
    var cbs := OfType(blocks, TYPE_BINARY_SPRAY);
    if |cbs| != 1 then Copies(0)
    else if cbs[0].value.BinarySpray? then Copies(cbs[0].value.copies)
    else Panic
  }

  /** The extension blocks of a bundle as binary spray sends it. */
  function Sprayed(blocks: seq<CanonicalBlock>, copies: uint64, own: EndpointID): seq<CanonicalBlock>
    requires |blocks| < MAX_BLOCKS
  {
    AddLength(blocks, copies);
    WithPrevious(WithSpray(blocks, copies), own)
  }

  lemma AddLength(blocks: seq<CanonicalBlock>, copies: uint64)
    requires |blocks| <= MAX_BLOCKS
    ensures |WithSpray(blocks, copies)| <= |blocks| + 1
  {
    hide AddBlock, RemoveType;
    RemoveTypeShorter(blocks, TYPE_BINARY_SPRAY);
  }

  /** The receiver gets the number of copies that was sent, and can in turn replace it. */
  lemma SprayedIsReceived(blocks: seq<CanonicalBlock>, copies: uint64, own: EndpointID)
    requires DistinctNumbers(blocks) && |blocks| < MAX_BLOCKS && |OfType(blocks, TYPE_BINARY_SPRAY)| <= 1
    ensures ReceivedCopies(Sprayed(blocks, copies, own)) == Copies(copies)
    ensures DistinctNumbers(Sprayed(blocks, copies, own)) && |OfType(Sprayed(blocks, copies, own), TYPE_BINARY_SPRAY)| == 1
  {
    hide OfType, WithPrevious, WithSpray, DistinctNumbers;
    SprayBlockReplaced(blocks, copies);
    var with := WithSpray(blocks, copies);
    PreviousNodeExactly(with, own);
    var cbs := OfType(with, TYPE_BINARY_SPRAY);
    assert cbs == [cbs[0]];
    OneOf(OfType(WithPrevious(with, own), TYPE_BINARY_SPRAY), cbs[0]);
  }
}
