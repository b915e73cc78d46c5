/**
  One bidirectional QUIC stream, seen from one end, as two byte sequences:
  the bytes the peer has sent that this end has not read yet, and the bytes
  this end has written. Connection and stream setup, encryption and timing
  are not part of this model. How many more bytes the transport will carry
  before the connection breaks is a number the environment chooses; a
  write that does not fit fails after some of its bytes, possibly none,
  have gone out, and every later write fails too.
*/
module Transport {
  import opened Bytes
  import opened Wrappers

  /** What went out between `before` and `after` is the beginning of `out`. */
  ghost predicate SentPrefix(before: seq<byte>, after: seq<byte>, out: seq<byte>)
  {
    |before| <= |after| <= |before| + |out| && after == before + out[..|after| - |before|]
  }

  /** A broken write of the first part leaves a prefix of the whole. */
  lemma PrefixOfFirst(before: seq<byte>, after: seq<byte>, first: seq<byte>, second: seq<byte>)
    requires SentPrefix(before, after, first)
    ensures SentPrefix(before, after, first + second)
  {
    assert (first + second)[..|after| - |before|] == first[..|after| - |before|];
  }

  /** A complete first part followed by a prefix of the second is a prefix of both. */
  lemma PrefixAfterFirst(before: seq<byte>, after: seq<byte>, first: seq<byte>, second: seq<byte>)
    requires SentPrefix(before + first, after, second)
    ensures SentPrefix(before, after, first + second)
  {
    var k := |after| - |before| - |first|;
    assert (first + second)[..|first| + k] == first + second[..k];
  }

  /** A prefix of a prefix of `whole` is a prefix of `whole`. */
  lemma PrefixOfPrefix(before: seq<byte>, after: seq<byte>, part: seq<byte>, whole: seq<byte>)
    requires SentPrefix(before, after, part)
    requires |part| <= |whole| && part == whole[..|part|]
    ensures SentPrefix(before, after, whole)
  {
    assert whole[..|after| - |before|] == part[..|after| - |before|];
  }

  class Stream {
    /** Bytes sent by the peer and not yet read; the stream ends after them. */
    var inbound: seq<byte>
    /** Bytes written by this end, in order. */
    var outbound: seq<byte>
    /** Bytes the transport still carries before the connection breaks. */
    var room: nat

    constructor (incoming: seq<byte>, room: nat)
      ensures inbound == incoming && outbound == [] && this.room == room
    {
      inbound := incoming;
      outbound := [];
      this.room := room;
    }

    /**
      `stream.Write`: all bytes are sent; or an error, after some first part
      of the bytes that fitted went out, and the connection is broken.
    */
    method Write(data: seq<byte>) returns (ok: bool)
      modifies this`outbound, this`room
      ensures ok == (|data| <= old(room))
      ensures ok ==> outbound == old(outbound) + data && room == old(room) - |data|
      ensures !ok ==> SentPrefix(old(outbound), outbound, data) && |outbound| < |old(outbound)| + |data| && room == 0
    {
      ok := |data| <= room;
      if ok {
        outbound := outbound + data;
        room := room - |data|;
      } else {
        var n: nat :| n <= room;
        outbound := outbound + data[..n];
        room := 0;
      }
    }

    /**
      `io.ReadAtLeast(stream, buf, n)` with `len(buf) == n`: exactly n bytes,
      or an error after consuming what was left before the end of the stream.
    */
    method ReadFull(n: nat) returns (data: Option<seq<byte>>)
      modifies this`inbound
      ensures n <= |old(inbound)| ==> data == Some(old(inbound)[..n]) && inbound == old(inbound)[n..]
      ensures |old(inbound)| < n ==> data == None && inbound == []
    {
      if n <= |inbound| {
        data := Some(inbound[..n]);
        inbound := inbound[n..];
      } else {
        data := None;
        inbound := [];
      }
    }

    /**
      `stream.Read(buf)` with `len(buf) == max`: some bytes, at least one and
      at most max, however the transport happens to deliver them; an error
      (`io.EOF`) once the stream has ended.
    */
    method Read(max: nat) returns (data: seq<byte>, eof: bool)
      requires max > 0
      modifies this`inbound
      ensures eof <==> old(inbound) == []
      ensures eof ==> data == [] && inbound == old(inbound)
      ensures !eof ==> 0 < |data| <= max && old(inbound) == data + inbound
    {
      eof := inbound == [];
      if eof {
        data := [];
      } else {
        var n: nat :| 0 < n <= max && n <= |inbound|;
        data := inbound[..n];
        inbound := inbound[n..];
      }
    }

    /** The transport delivers bytes the peer wrote to this end. */
    method Deliver(data: seq<byte>)
      modifies this`inbound
      ensures inbound == old(inbound) + data
    {
      inbound := inbound + data;
    }
  }
}
