/** Block numbers: finding a free one, and the order of the extension blocks. */
module Numbering {
  import opened Bytes
  import opened Blocks
  import opened Sorting

  /** Go slices cannot be longer than this, so a free block number always fits 64 bits. */
  const MAX_BLOCKS := 0x7FFF_FFFF_FFFF_FFFF

  function Numbers(blocks: seq<CanonicalBlock>): set<int> {
    set i | 0 <= i < |blocks| :: blocks[i].number
  }

  // ---------------------------------------------------------------- the least free number

  ghost predicate IsLeastFree(s: set<int>, start: int, n: int) {
    n >= start && n !in s && forall k :: start <= k < n ==> k in s
  }

  lemma LeastFreeUnique(s: set<int>, start: int, m: int, n: int)
    requires IsLeastFree(s, start, m) && IsLeastFree(s, start, n)
    ensures m == n
  {
  }

  function Interval(lo: int, hi: int): (s: set<int>)
    requires lo <= hi
    ensures forall k :: k in s <==> lo <= k < hi
    ensures |s| == hi - lo
    decreases hi - lo
  {
    if lo == hi then {} else Interval(lo, hi - 1) + {hi - 1}
  }

  lemma {:induction false} SubsetSize<T>(a: set<T>, b: set<T>)
    requires a <= b
    ensures |a| <= |b|
  {
    if a != {} {
      var x :| x in a;
      SubsetSize(a - {x}, b - {x});
    }
  }

  /** Pigeonhole: as many numbers in use as were tried. */
  lemma TriedNumbersBound(s: set<int>, start: int, n: int)
    requires start <= n && forall k :: start <= k < n ==> k in s
    ensures n - start <= |s|
  {
    SubsetSize(Interval(start, n), s);
  }

  lemma {:induction false} NumbersSize(blocks: seq<CanonicalBlock>)
    ensures |Numbers(blocks)| <= |blocks|
  {
    if blocks != [] {
      var n := |blocks| - 1;
      NumbersSize(blocks[..n]);
      assert Numbers(blocks) == Numbers(blocks[..n]) + {blocks[n].number};
    }
  }

  /** The search loop of AddExtensionBlock: it ends, and with the least free number. */
  method FindFree(blocks: seq<CanonicalBlock>, start: uint64) returns (n: uint64)
    requires start <= 2 && |blocks| <= MAX_BLOCKS
    ensures IsLeastFree(Numbers(blocks), start, n)
    ensures n <= start + |blocks|
  {
    var candidate: int := start;
    ghost var used := Numbers(blocks);
    NumbersSize(blocks);
    while true
      invariant start <= candidate && forall k :: start <= k < candidate ==> k in used
      invariant candidate - start <= |used|
      decreases |used| - (candidate - start)
    {
      var free := true;
      for i := 0 to |blocks|
        invariant free <==> forall j :: 0 <= j < i ==> blocks[j].number != candidate
      {
        if blocks[i].number == candidate {
          free := false;
          break;
        }
      }
      if free {
        break;
      }
      candidate := candidate + 1;
      TriedNumbersBound(used, start, candidate);
    }
    n := candidate;
  }

  /** The least free number as a function. */
  function LeastFree(s: set<int>, start: int): (n: int)
    ensures IsLeastFree(s, start, n)
    ensures n - start <= |s|
    decreases |s|
  {
    if start !in s then start
    else
      var t := s - {start};
      var n := LeastFree(t, start + 1);
      assert forall k :: start + 1 <= k < n ==> k in t;
      assert forall k :: k in t || k == start <==> k in s;
      n
  }

  // ---------------------------------------------------------------- the order

  /** Ascending block numbers, with the payload's number 1 after all others. */
  function Key(cb: CanonicalBlock): int {
    if cb.number == 1 then TWO_TO_THE_64 else cb.number
  }

  // ---------------------------------------------------------------- adding and removing

  function StartNumber(cb: CanonicalBlock): uint64 {
    if cb.TypeCode() == TYPE_PAYLOAD then 1 else 2
  }

  function Renumber(cb: CanonicalBlock, blocks: seq<CanonicalBlock>): CanonicalBlock
    requires |blocks| <= MAX_BLOCKS
  {
    NumbersSize(blocks);
    cb.(number := LeastFree(Numbers(blocks), StartNumber(cb)))
  }

  /** The extension blocks after AddExtensionBlock. */
  function AddBlock(blocks: seq<CanonicalBlock>, cb: CanonicalBlock): (r: seq<CanonicalBlock>)
    requires |blocks| <= MAX_BLOCKS
    ensures |r| == |blocks| + 1
  {
    SortBy(Key, blocks + [Renumber(cb, blocks)])
  }

  lemma KeysDistinct(blocks: seq<CanonicalBlock>)
    ensures DistinctNumbers(blocks) <==> DistinctBy(Key, blocks)
  {
  }

  /** Adding a block gives it the least free number from 2 on, or from 1 on for a payload block, keeps the numbers
      distinct, sorts the blocks, and changes nothing else. */
  lemma AddBlockMeaning(blocks: seq<CanonicalBlock>, cb: CanonicalBlock)
    requires |blocks| <= MAX_BLOCKS
    ensures var added := Renumber(cb, blocks);
            && IsLeastFree(Numbers(blocks), StartNumber(cb), added.number)
            && multiset(AddBlock(blocks, cb)) == multiset(blocks) + multiset{added}
            && SortedBy(Key, AddBlock(blocks, cb))
            && (DistinctNumbers(blocks) ==> DistinctNumbers(AddBlock(blocks, cb)))
  {
    hide SortBy, DistinctBy, LeastFree;
    var added := Renumber(cb, blocks);
    var all := blocks + [added];
    SortPermutes(Key, all);
    SortSorts(Key, all);
    if DistinctNumbers(blocks) {
      forall i | 0 <= i < |blocks| ensures blocks[i].number != added.number {
        assert blocks[i].number in Numbers(blocks);
      }
      KeysDistinct(all);
      DistinctPermuted(Key, all, AddBlock(blocks, cb));
      KeysDistinct(AddBlock(blocks, cb));
    }
  }

  /** Blocks added one after the other to a bundle without extension blocks. */
  function AddAll(cbs: seq<CanonicalBlock>): (r: seq<CanonicalBlock>)
    requires |cbs| <= MAX_BLOCKS
    ensures |r| == |cbs|
  {
    if cbs == [] then [] else AddBlock(AddAll(cbs[..|cbs| - 1]), cbs[|cbs| - 1])
  }

  /** The same blocks, numbered from 2 on. */
  function Renumbered(cbs: seq<CanonicalBlock>): (r: seq<CanonicalBlock>)
    requires |cbs| <= MAX_BLOCKS
    ensures |r| == |cbs|
  {
    seq(|cbs|, i requires 0 <= i < |cbs| => cbs[i].(number := 2 + i))
  }

  lemma NextAfterRenumbered(cbs: seq<CanonicalBlock>)
    requires |cbs| <= MAX_BLOCKS
    ensures LeastFree(Numbers(Renumbered(cbs)), 2) == |cbs| + 2
  {
    hide LeastFree;
    var r, n := Renumbered(cbs), |cbs|;
    forall k | 2 <= k < n + 2 ensures k in Numbers(r) {
      assert r[k - 2].number == k;
    }
    assert n + 2 !in Numbers(r);
    LeastFreeUnique(Numbers(r), 2, LeastFree(Numbers(r), 2), n + 2);
  }

  lemma RenumberedSorted(cbs: seq<CanonicalBlock>)
    requires |cbs| <= MAX_BLOCKS
    ensures SortBy(Key, Renumbered(cbs)) == Renumbered(cbs)
  {
    hide SortBy;
    SortOfSorted(Key, Renumbered(cbs));
  }

  /** Blocks of other types than the payload's are numbered 2, 3, 4, … and keep their order. */
  lemma {:induction false} AddAllRenumbers(cbs: seq<CanonicalBlock>)
    requires |cbs| <= MAX_BLOCKS && forall cb :: cb in cbs ==> cb.TypeCode() != TYPE_PAYLOAD
    ensures AddAll(cbs) == Renumbered(cbs)
  {
    hide LeastFree, Numbers, SortBy;
    if cbs != [] {
      var n := |cbs| - 1;
      AddAllRenumbers(cbs[..n]);
      NextAfterRenumbered(cbs[..n]);
      RenumberedSorted(cbs);
      assert Renumbered(cbs[..n]) + [Renumber(cbs[n], Renumbered(cbs[..n]))] == Renumbered(cbs);
    }
  }

  /** The extension blocks after RemoveExtensionBlockByBlockNumber: the first block with the number is gone. */
  function RemoveNumber(blocks: seq<CanonicalBlock>, number: uint64): seq<CanonicalBlock> {
    if blocks == [] then []
    else if blocks[0].number == number then blocks[1..]
    else [blocks[0]] + RemoveNumber(blocks[1..], number)
  }

  lemma {:induction false} RemoveNumberMeaning(blocks: seq<CanonicalBlock>, k: nat)
    requires k < |blocks| && DistinctNumbers(blocks)
    ensures RemoveNumber(blocks, blocks[k].number) == blocks[..k] + blocks[k + 1..]
  {
    if k > 0 {
      RemoveNumberMeaning(blocks[1..], k - 1);
    }
  }
}
