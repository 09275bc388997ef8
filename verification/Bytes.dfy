/** Machine integers, big-endian words and a few facts about sequences and maps. Go strings are byte sequences. */
module Bytes {

  const TWO_TO_THE_16 := 0x1_0000
  const TWO_TO_THE_32 := 0x1_0000_0000
  const TWO_TO_THE_64 := 0x1_0000_0000_0000_0000

  type byte = x: int | 0 <= x < 0x100
  type uint16 = x: int | 0 <= x < TWO_TO_THE_16
  type uint32 = x: int | 0 <= x < TWO_TO_THE_32
  type uint64 = x: int | 0 <= x < TWO_TO_THE_64

  datatype Option<+T> = None | Some(value: T) {
    predicate IsFailure() {
      None?
    }

    function PropagateFailure<U>(): Option<U>
      requires None?
    {
      None
    }

    function Extract(): T
      requires Some?
    {
      value
    }
  }

  /** Go's `uint64(len(s))`. */
  function Length<T>(s: seq<T>): (n: uint64)
    ensures |s| < TWO_TO_THE_64 ==> n == |s|
  {
    |s| % TWO_TO_THE_64
  }

  /** The low `k` bytes of `n`, most significant first. */
  function BigEndian(n: nat, k: nat): (s: seq<byte>)
    ensures |s| == k
  {
    if k == 0 then [] else BigEndian(n / 0x100, k - 1) + [n % 0x100]
  }

  function FromBigEndian(s: seq<byte>): nat {
    if s == [] then 0 else 0x100 * FromBigEndian(s[..|s| - 1]) + s[|s| - 1]
  }

  function Pow256(k: nat): nat {
    if k == 0 then 1 else 0x100 * Pow256(k - 1)
  }

  lemma Pow256Values()
    ensures Pow256(1) == 0x100 && Pow256(2) == TWO_TO_THE_16
    ensures Pow256(4) == TWO_TO_THE_32 && Pow256(8) == TWO_TO_THE_64
  {
    assert Pow256(3) == 0x100_0000;
    assert Pow256(4) == TWO_TO_THE_32;
    assert Pow256(5) == 0x100_0000_0000;
    assert Pow256(6) == 0x1_0000_0000_0000;
  }

  lemma {:induction false} BigEndianRoundTrip(n: nat, k: nat)
    requires n < Pow256(k)
    ensures FromBigEndian(BigEndian(n, k)) == n
  {
    if k != 0 {
      BigEndianRoundTrip(n / 0x100, k - 1);
      var s := BigEndian(n, k);
      assert s[..|s| - 1] == BigEndian(n / 0x100, k - 1);
    }
  }

  lemma {:induction false} FromBigEndianBound(s: seq<byte>)
    ensures FromBigEndian(s) < Pow256(|s|)
  {
    if s != [] {
      FromBigEndianBound(s[..|s| - 1]);
    }
  }

  lemma TwoBytes(n: uint16)
    ensures BigEndian(n, 2) == [n / 0x100, n % 0x100]
  {
    assert BigEndian(n / 0x100, 1) == BigEndian(n / 0x100 / 0x100, 0) + [n / 0x100 % 0x100];
  }

  lemma FourBytes(n: uint32)
    ensures BigEndian(n, 4) == [n / 0x100_0000, n / 0x1_0000 % 0x100, n / 0x100 % 0x100, n % 0x100]
  {
    var high := n / 0x1_0000;
    TwoBytes(high);
    assert n / 0x100 / 0x100 == high;
    assert high / 0x100 == n / 0x100_0000;
    assert BigEndian(n, 4) == BigEndian(n / 0x100, 3) + [n % 0x100];
    assert BigEndian(n / 0x100, 3) == BigEndian(high, 2) + [n / 0x100 % 0x100];
  }

  /** `s` minus its suffix `rest`: what a reader consumed while moving from `s` to `rest`. */
  function Consumed(s: seq<byte>, rest: seq<byte>): seq<byte> {
    if |rest| <= |s| then s[..|s| - |rest|] else s
  }

  ghost predicate IsSuffix(rest: seq<byte>, s: seq<byte>) {
    |rest| <= |s| && s[|s| - |rest|..] == rest
  }

  lemma SuffixTransitive(a: seq<byte>, b: seq<byte>, c: seq<byte>)
    requires IsSuffix(a, b) && IsSuffix(b, c)
    ensures IsSuffix(a, c)
    ensures Consumed(c, a) == Consumed(c, b) + Consumed(b, a)
  {
    assert c == c[..|c| - |b|] + b;
  }

  lemma ConsumedPrefix(p: seq<byte>, rest: seq<byte>)
    ensures Consumed(p + rest, rest) == p && IsSuffix(rest, p + rest)
  {
  }

  lemma Associative(a: seq<byte>, b: seq<byte>, c: seq<byte>)
    ensures (a + b) + c == a + (b + c)
  {
  }

  // ---------------------------------------------------------------- collecting results in a loop

  /** What a loop has got so far, followed by what is still to come, if that succeeds. */
  function Resume<T>(got: seq<T>, p: Option<seq<T>>): Option<seq<T>> {
    if p.Some? then Some(got + p.value) else None
  }

  lemma ResumeNothing<T>(p: Option<seq<T>>)
    ensures Resume([], p) == p
  {
    if p.Some? {
      assert [] + p.value == p.value;
    }
  }

  lemma ResumeEnd<T>(got: seq<T>)
    ensures Resume(got, Some([])) == Some(got) && Resume(got, None) == None
  {
    assert got + [] == got;
  }

  lemma ResumeTwice<T>(got: seq<T>, next: seq<T>, p: Option<seq<T>>)
    ensures Resume(got, Some(next)) == Some(got + next)
    ensures Resume(got, Resume(next, p)) == Resume(got + next, p)
  {
    if p.Some? {
      assert got + (next + p.value) == got + next + p.value;
    }
  }

  // ---------------------------------------------------------------- maps

  /** Some key, to go through a map one entry at a time. */
  ghost function AnyKey<K, V>(m: map<K, V>): (k: K)
    requires m != map[]
    ensures k in m
  {
    assert m.Keys != {};
    var k :| k in m.Keys;
    k
  }
}
