/** Byte streams: the io.Reader, io.TeeReader and io.Writer the codec works on. */
module Streams {
  import opened Bytes
  import opened Cbor

  /** An io.Reader over a byte stream; while teeing, a copy of the bytes read goes to `tee`, as with io.TeeReader. */
  class Reader {
    var rest: seq<byte>
    var teeing: bool
    var tee: seq<byte>

    constructor (data: seq<byte>)
      ensures rest == data && !teeing && tee == []
    {
      rest := data;
      teeing := false;
      tee := [];
    }

    /** Copy everything read from now on, after the bytes `replay`. */
    method StartTee(replay: seq<byte>)
      modifies this
      ensures rest == old(rest) && teeing && tee == replay
    {
      teeing := true;
      tee := replay;
    }

    method StopTee()
      modifies this
      ensures rest == old(rest) && !teeing && tee == old(tee)
    {
      teeing := false;
    }

    /** The stream moved on to a suffix of what it held, and the tee holds what lies between. */
    twostate predicate Advanced()
      reads this
    {
      && IsSuffix(rest, old(rest))
      && teeing == old(teeing)
      && tee == old(tee) + if teeing then Consumed(old(rest), rest) else []
    }

    method ReadRaw(n: nat) returns (r: Outcome<seq<byte>>)
      modifies this
      ensures r == Cbor.ReadRaw(n, old(rest)).Outcome()
      ensures !r.Failed? ==> rest == Cbor.ReadRaw(n, old(rest)).rest
      ensures Advanced()
    {
      if n > |rest| {
        return Failed;
      }
      var taken := rest[..n];
      rest := rest[n..];
      if teeing {
        tee := tee + taken;
      }
      return Got(taken);
    }

    method ReadArgument(major: Major, k: nat) returns (r: Outcome<(Major, uint64)>)
      requires k in {1, 2, 4, 8}
      modifies this
      ensures r == Cbor.ReadArgument(major, k, old(rest)).Outcome()
      ensures !r.Failed? ==> rest == Cbor.ReadArgument(major, k, old(rest)).rest
      ensures Advanced()
    {
      var argument :- ReadRaw(k);
      Pow256Values();
      FromBigEndianBound(argument);
      return Got((major, FromBigEndian(argument)));
    }

    method ReadMajors() returns (r: Outcome<(Major, uint64)>)
      modifies this
      ensures r == Cbor.ReadMajors(old(rest)).Outcome()
      ensures !r.Failed? ==> rest == Cbor.ReadMajors(old(rest)).rest
      ensures Advanced()
    {
      hide Cbor.ReadArgument, Pow256, FromBigEndian;
      var b :- ReadRaw(1);
      if b[0] == INDEFINITE_ARRAY {
        return Failed;
      } else if b[0] == BREAK_CODE {
        return Broke;
      }
      var major, info := b[0] / 32, b[0] % 32;
      if info < 24 {
        return Got((major, info));
      } else if info > 27 {
        return Failed;
      }
      label L:
      r := ReadArgument(major, if info == 24 then 1 else if info == 25 then 2 else if info == 26 then 4 else 8);
      SuffixTransitive(rest, old@L(rest), old(rest));
    }

    method ReadUInt() returns (r: Outcome<uint64>)
      modifies this
      ensures r == Cbor.ReadUInt(old(rest)).Outcome()
      ensures !r.Failed? ==> rest == Cbor.ReadUInt(old(rest)).rest
      ensures Advanced()
    {
      hide Cbor.ReadMajors, IsSuffix, Consumed;
      var head :- ReadMajors();
      return if head.0 == MAJOR_UINT then Got(head.1) else Failed;
    }

    method ReadPair() returns (r: Outcome<(uint64, uint64)>)
      modifies this
      ensures r == Cbor.ReadPair(old(rest)).Outcome()
      ensures !r.Failed? ==> rest == Cbor.ReadPair(old(rest)).rest
      ensures Advanced()
    {
      hide ReadExpected, IsSuffix, Consumed;
      var m :- ReadUInt();
      label L:
      var second := ReadUInt();
      SuffixTransitive(rest, old@L(rest), old(rest));
      var n :- second;
      return Got((m, n));
    }

    method ReadArrayLength() returns (r: Outcome<uint64>)
      modifies this
      ensures r == Cbor.ReadArrayLength(old(rest)).Outcome()
      ensures !r.Failed? ==> rest == Cbor.ReadArrayLength(old(rest)).rest
      ensures Advanced()
    {
      hide Cbor.ReadMajors, IsSuffix, Consumed;
      var head :- ReadMajors();
      return if head.0 == MAJOR_ARRAY then Got(head.1) else Failed;
    }

    method ReadByteStringLen() returns (r: Outcome<uint64>)
      modifies this
      ensures r == Cbor.ReadByteStringLen(old(rest)).Outcome()
      ensures !r.Failed? ==> rest == Cbor.ReadByteStringLen(old(rest)).rest
      ensures Advanced()
    {
      hide Cbor.ReadMajors, IsSuffix, Consumed;
      var head :- ReadMajors();
      return if head.0 == MAJOR_BYTES then Got(head.1) else Failed;
    }

    method ReadByteString() returns (r: Outcome<seq<byte>>)
      modifies this
      ensures r == Cbor.ReadByteString(old(rest)).Outcome()
      ensures !r.Failed? ==> rest == Cbor.ReadByteString(old(rest)).rest
      ensures Advanced()
    {
      hide ReadExpected, IsSuffix, Consumed;
      var n :- ReadByteStringLen();
      label L:
      r := ReadRaw(n);
      SuffixTransitive(rest, old@L(rest), old(rest));
    }

    method ReadExpect(b: byte) returns (r: Outcome<()>)
      modifies this
      ensures r == Cbor.ReadExpect(b, old(rest)).Outcome()
      ensures !r.Failed? ==> rest == Cbor.ReadExpect(b, old(rest)).rest
      ensures Advanced()
    {
      var got :- ReadRaw(1);
      return if got[0] == b then Got(()) else Failed;
    }
  }

  /** An io.Writer that collects bytes; while copying, the bytes also go to `copy`, as with io.MultiWriter. */
  class Writer {
    var data: seq<byte>
    var copying: bool
    var copy: seq<byte>

    constructor ()
      ensures data == [] && !copying && copy == []
    {
      data := [];
      copying := false;
      copy := [];
    }

    method StartCopy()
      modifies this
      ensures data == old(data) && copying && copy == []
    {
      copying := true;
      copy := [];
    }

    /** Forget what was written. */
    method Reset()
      modifies this
      ensures data == [] && copying == old(copying) && copy == old(copy)
    {
      data := [];
    }

    method StopCopy()
      modifies this
      ensures data == old(data) && !copying && copy == old(copy)
    {
      copying := false;
    }

    /** The bytes `s` were written, and copied if copying was on. */
    twostate predicate Appended(s: seq<byte>)
      reads this
    {
      && data == old(data) + s
      && copying == old(copying)
      && copy == old(copy) + if copying then s else []
    }

    method Write(s: seq<byte>)
      modifies this
      ensures Appended(s)
    {
      data := data + s;
      if copying {
        copy := copy + s;
      }
    }
  }
}
