/** The CBOR subset used by the bundle codec: heads of section 3 of RFC 8949, as written and read by cboring. */
module Cbor {
  import opened Bytes

  const MAJOR_UINT := 0
  const MAJOR_BYTES := 2
  const MAJOR_TEXT := 3
  const MAJOR_ARRAY := 4

  const INDEFINITE_ARRAY: byte := 0x9F
  const BREAK_CODE: byte := 0xFF

  type Major = m: int | 0 <= m < 8

  /** Outcome of a reader on a byte sequence: a value and the bytes left over; the break code, which cboring reports
      as FlagBreakCode; or any other error (a panic of the original included). */
  datatype Parsed<+T> = Ok(value: T, rest: seq<byte>) | Break(rest: seq<byte>) | Fail {
    predicate IsFailure() {
      !Ok?
    }

    function PropagateFailure<U>(): Parsed<U>
      requires !Ok?
    {
      if Break? then Break(rest) else Fail
    }

    function Extract(): (T, seq<byte>)
      requires Ok?
    {
      (value, rest)
    }

    /** What a method returns that reads from a stream. */
    function Outcome(): Outcome<T> {
      match this
      case Ok(v, _) => Got(v)
      case Break(_) => Broke
      case Fail => Failed
    }

    /** An error that the caller wraps, so that it no longer compares equal to FlagBreakCode. */
    function Wrapped(): Parsed<T> {
      if Ok? then this else Fail
    }

    /** Something was read. */
    ghost predicate Within(s: seq<byte>) {
      !Fail? ==> |rest| < |s|
    }
  }

  datatype Outcome<+T> = Got(value: T) | Broke | Failed {
    predicate IsFailure() {
      !Got?
    }

    function PropagateFailure<U>(): Outcome<U>
      requires !Got?
    {
      if Broke? then Broke else Failed
    }

    function Extract(): T
      requires Got?
    {
      value
    }

    function Wrapped(): Outcome<T> {
      if Got? then this else Failed
    }
  }

  // ---------------------------------------------------------------- writing

  /** The shortest head for a major type and its argument. */
  function Head(major: Major, n: uint64): (s: seq<byte>)
    ensures |s| == HeadLength(n)
  {
    if n < 24 then [major * 32 + n]
    else if n < 0x100 then [major * 32 + 24] + BigEndian(n, 1)
    else if n < TWO_TO_THE_16 then [major * 32 + 25] + BigEndian(n, 2)
    else if n < TWO_TO_THE_32 then [major * 32 + 26] + BigEndian(n, 4)
    else [major * 32 + 27] + BigEndian(n, 8)
  }

  function HeadLength(n: uint64): nat {
    if n < 24 then 1 else if n < 0x100 then 2 else if n < TWO_TO_THE_16 then 3 else if n < TWO_TO_THE_32 then 5 else 9
  }

  lemma HeadLengthMonotone(m: uint64, n: uint64)
    requires m <= n
    ensures HeadLength(m) <= HeadLength(n)
  {
  }

  function UInt(n: uint64): seq<byte> {
    Head(MAJOR_UINT, n)
  }

  function ArrayHead(n: uint64): seq<byte> {
    Head(MAJOR_ARRAY, n)
  }

  function ByteString(s: seq<byte>): seq<byte> {
    Head(MAJOR_BYTES, Length(s)) + s
  }

  function TextString(s: seq<byte>): seq<byte> {
    Head(MAJOR_TEXT, Length(s)) + s
  }

  // ---------------------------------------------------------------- reading

  function ReadRaw(n: nat, s: seq<byte>): (p: Parsed<seq<byte>>)
    ensures p.Ok? ==> |p.rest| == |s| - n
    ensures !p.Break?
  {
    if n <= |s| then Ok(s[..n], s[n..]) else Fail
  }

  /** Any well-formed definite head is accepted, also one that is longer than needed. */
  function ReadMajors(s: seq<byte>): (p: Parsed<(Major, uint64)>)
    ensures p.Within(s)
  {
    if s == [] then Fail
    else if s[0] == INDEFINITE_ARRAY then Fail
    else if s[0] == BREAK_CODE then Break(s[1..])
    else
      var major, info := s[0] / 32, s[0] % 32;
      if info < 24 then Ok((major, info), s[1..])
      else if info == 24 then ReadArgument(major, 1, s[1..])
      else if info == 25 then ReadArgument(major, 2, s[1..])
      else if info == 26 then ReadArgument(major, 4, s[1..])
      else if info == 27 then ReadArgument(major, 8, s[1..])
      else Fail
  }

  function ReadArgument(major: Major, k: nat, s: seq<byte>): (p: Parsed<(Major, uint64)>)
    requires k in {1, 2, 4, 8}
    ensures p.Within(s)
  {
    if |s| < k then Fail
    else
      Pow256Values();
      FromBigEndianBound(s[..k]);
      Ok((major, FromBigEndian(s[..k])), s[k..])
  }

  function ReadExpected(major: Major, s: seq<byte>): (p: Parsed<uint64>)
    ensures p.Within(s)
  {
    var (head, rest) :- ReadMajors(s);
    if head.0 == major then Ok(head.1, rest) else Fail
  }

  function ReadUInt(s: seq<byte>): (p: Parsed<uint64>)
    ensures p.Within(s)
  {
    ReadExpected(MAJOR_UINT, s)
  }

  function ReadArrayLength(s: seq<byte>): (p: Parsed<uint64>)
    ensures p.Within(s)
  {
    ReadExpected(MAJOR_ARRAY, s)
  }

  function ReadByteStringLen(s: seq<byte>): (p: Parsed<uint64>)
    ensures p.Within(s)
  {
    ReadExpected(MAJOR_BYTES, s)
  }

  function ReadByteString(s: seq<byte>): (p: Parsed<seq<byte>>)
    ensures p.Within(s)
  {
    var (n, rest) :- ReadByteStringLen(s);
    ReadRaw(n, rest)
  }

  /** Two unsigned integers in a row. */
  function ReadPair(s: seq<byte>): (p: Parsed<(uint64, uint64)>)
    ensures p.Within(s)
  {
    var (m, s1) :- ReadUInt(s);
    var (n, s2) :- ReadUInt(s1);
    Ok((m, n), s2)
  }

  function ReadExpect(b: byte, s: seq<byte>): (p: Parsed<()>)
    ensures p.Within(s)
  {
    if s != [] && s[0] == b then Ok((), s[1..]) else Fail
  }

  // ---------------------------------------------------------------- round trips

  lemma ReadOwnArgument(major: Major, n: uint64, k: nat, t: seq<byte>)
    requires k in {1, 2, 4, 8} && n < Pow256(k)
    ensures ReadArgument(major, k, BigEndian(n, k) + t) == Ok((major, n), t)
  {
    hide BigEndian, FromBigEndian, Pow256;
    var s := BigEndian(n, k) + t;
    assert s[..k] == BigEndian(n, k) && s[k..] == t;
    BigEndianRoundTrip(n, k);
  }

  lemma ReadHead(major: Major, n: uint64, t: seq<byte>)
    requires major <= MAJOR_ARRAY
    ensures ReadMajors(Head(major, n) + t) == Ok((major, n), t)
  {
    hide BigEndian, FromBigEndian, Pow256, ReadArgument;
    var s := Head(major, n) + t;
    if n < 24 {
      assert s[1..] == t;
    } else {
      var k := HeadLength(n) - 1;
      assert s[1..] == BigEndian(n, k) + t;
      Pow256Values();
      ReadOwnArgument(major, n, k, t);
    }
  }

  lemma ReadUIntHead(n: uint64, t: seq<byte>)
    ensures ReadUInt(UInt(n) + t) == Ok(n, t)
  {
    ReadHead(MAJOR_UINT, n, t);
  }

  lemma ReadPairHeads(m: uint64, n: uint64, t: seq<byte>)
    ensures ReadPair((UInt(m) + UInt(n)) + t) == Ok((m, n), t)
  {
    hide UInt, ReadExpected;
    Associative(UInt(m), UInt(n), t);
    ReadUIntHead(m, UInt(n) + t);
    ReadUIntHead(n, t);
  }

  lemma ReadArrayHead(n: uint64, t: seq<byte>)
    ensures ReadArrayLength(ArrayHead(n) + t) == Ok(n, t)
  {
    ReadHead(MAJOR_ARRAY, n, t);
  }

  lemma ReadBytesHead(n: uint64, t: seq<byte>)
    ensures ReadByteStringLen(Head(MAJOR_BYTES, n) + t) == Ok(n, t)
  {
    ReadHead(MAJOR_BYTES, n, t);
  }

  /** A byte string is read back exactly, and nothing after it is touched. */
  lemma ByteStringRoundTrip(d: seq<byte>, t: seq<byte>)
    requires |d| < TWO_TO_THE_64
    ensures ReadByteString(ByteString(d) + t) == Ok(d, t)
  {
    Associative(Head(MAJOR_BYTES, |d|), d, t);
    ReadBytesHead(|d|, d + t);
  }
}
