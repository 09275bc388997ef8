/** Decimal numbers and splitting of byte strings, as strconv and strings do it. */
module Text {
  import opened Bytes

  function Digit(d: nat): byte
    requires d < 10
  {
    0x30 + d
  }

  predicate IsDigit(b: byte) {
    0x30 <= b <= 0x39
  }

  predicate AllDigits(s: seq<byte>) {
    forall k :: 0 <= k < |s| ==> IsDigit(s[k])
  }

  /** `%d` of a non-negative number. */
  function Decimal(n: nat): (s: seq<byte>)
    ensures s != [] && AllDigits(s)
  {
    if n < 10 then [Digit(n)] else Decimal(n / 10) + [Digit(n % 10)]
  }

  function DigitsValue(s: seq<byte>): nat
    requires AllDigits(s)
  {
    if s == [] then 0 else 10 * DigitsValue(s[..|s| - 1]) + (s[|s| - 1] - 0x30)
  }

  /** strconv.ParseUint(s, 10, 64): leading zeros are fine; the empty string, other bytes and overflow are not. */
  function ParseUint(s: seq<byte>): Option<uint64> {
    if s != [] && AllDigits(s) && DigitsValue(s) < TWO_TO_THE_64 then Some(DigitsValue(s)) else None
  }

  lemma {:induction false} DecimalRoundTrip(n: nat)
    ensures DigitsValue(Decimal(n)) == n
    ensures n < TWO_TO_THE_64 ==> ParseUint(Decimal(n)) == Some(n)
  {
    if n >= 10 {
      DecimalRoundTrip(n / 10);
      var s := Decimal(n);
      assert s[..|s| - 1] == Decimal(n / 10);
    } else {
      assert Decimal(n)[..0] == [];
    }
  }

  /** Position of the first `b`, or |s|. */
  function IndexOf(s: seq<byte>, b: byte): (i: nat)
    ensures i <= |s| && b !in s[..i]
    ensures i < |s| ==> s[i] == b
  {
    if s == [] then 0
    else if s[0] == b then 0
    else
      var i := 1 + IndexOf(s[1..], b);
      assert s[..i] == [s[0]] + s[1..][..i - 1];
      i
  }

  lemma IndexOfFirst(p: seq<byte>, b: byte, t: seq<byte>)
    requires b !in p
    ensures IndexOf(p + [b] + t, b) == |p|
  {
    var s := p + [b] + t;
    assert s[|p|] == b && s[..|p|] == p;
    assert forall i :: |p| < i <= |s| ==> s[..i][|p|] == b;
  }

  /** strings.Split with a one-byte separator. */
  function Split(s: seq<byte>, b: byte): (parts: seq<seq<byte>>)
    ensures parts != []
    ensures forall p :: p in parts ==> b !in p
    decreases |s|
  {
    var i := IndexOf(s, b);
    if i == |s| then
      assert s[..i] == s;
      [s]
    else [s[..i]] + Split(s[i + 1..], b)
  }

  lemma SplitFirst(p: seq<byte>, b: byte, t: seq<byte>)
    requires b !in p
    ensures Split(p + [b] + t, b) == [p] + Split(t, b)
  {
    IndexOfFirst(p, b, t);
    assert (p + [b] + t)[..|p|] == p;
    assert (p + [b] + t)[|p| + 1..] == t;
  }

  lemma SplitLast(p: seq<byte>, b: byte)
    requires b !in p
    ensures Split(p, b) == [p]
  {
    hide Pow256;
  }

  /** strings.Join with a one-byte separator. */
  function Join(parts: seq<seq<byte>>, b: byte): seq<byte>
    requires parts != []
  {
    if |parts| == 1 then parts[0] else parts[0] + [b] + Join(parts[1..], b)
  }

  /** The parts are those, and the only ones without the separator, that give the text back when joined. */
  lemma {:induction false} SplitExactly(s: seq<byte>, b: byte, parts: seq<seq<byte>>)
    ensures Split(s, b) == parts <==> parts != [] && (forall p :: p in parts ==> b !in p) && Join(parts, b) == s
    decreases |s|
  {
    hide IndexOf;
    JoinSplit(s, b);
    if parts != [] && (forall p :: p in parts ==> b !in p) && Join(parts, b) == s {
      SplitJoin(parts, b);
    }
  }

  lemma {:induction false} JoinSplit(s: seq<byte>, b: byte)
    ensures Join(Split(s, b), b) == s
    decreases |s|
  {
    hide IndexOf;
    var i := IndexOf(s, b);
    if i < |s| {
      JoinSplit(s[i + 1..], b);
      var parts := [s[..i]] + Split(s[i + 1..], b);
      assert parts[1..] == Split(s[i + 1..], b);
      assert s == s[..i] + [b] + s[i + 1..];
    }
  }

  lemma {:induction false} SplitJoin(parts: seq<seq<byte>>, b: byte)
    requires parts != [] && forall p :: p in parts ==> b !in p
    ensures Split(Join(parts, b), b) == parts
  {
    hide Split;
    assert parts[0] in parts && forall p :: p in parts[1..] ==> p in parts;
    if |parts| == 1 {
      SplitLast(parts[0], b);
    } else {
      SplitJoin(parts[1..], b);
      SplitFirst(parts[0], b, Join(parts[1..], b));
      assert parts == [parts[0]] + parts[1..];
    }
  }
}
