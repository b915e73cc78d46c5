/**
  The frame header of common/common.go: `RpcHead{magic, size}`, written in
  front of every message and of the chunk phase.

  The source produces the header bytes by reinterpreting the struct's
  memory (`unsafe`), which on a 64-bit platform gives two 8-byte words in
  native byte order. Here that layout is fixed explicitly: `magic` then
  `size`, each an 8-byte little-endian two's-complement word.
*/
module Frame {
  import opened Bytes

  /** `headSize`: the width of two machine ints. */
  const HeadSize: nat := 16

  /** `buffSize`: the chunk quantum of the transfer loops. */
  const BuffSize: nat := 1024

  /** The magic every sender puts in a header. Readers never check it. */
  const Magic: Int64 := 1

  datatype RpcHead = RpcHead(magic: Int64, size: Int64)

  /** `RpcHead.Encode`: the header as HeadSize bytes. */
  function Encode(h: RpcHead): (r: seq<byte>)
    ensures |r| == HeadSize
  {
    Int64Fits(h.magic);
    Int64Fits(h.size);
    EncodeSigned(h.magic, 8) + EncodeSigned(h.size, 8)
  }

  /** `Decode`: the header held by HeadSize bytes. Any bytes decode. */
  function Decode(b: seq<byte>): (h: RpcHead)
    requires |b| == HeadSize
  {
    assert Pow256(8) == 0x1_0000_0000_0000_0000;
    RpcHead(DecodeSigned(b[..8]), DecodeSigned(b[8..]))
  }

  /** Decoding an encoded header recovers magic and size. */
  lemma DecodeEncode(h: RpcHead)
    ensures Decode(Encode(h)) == h
  {
    Int64Fits(h.magic);
    Int64Fits(h.size);
    var b := Encode(h);
    assert b[..8] == EncodeSigned(h.magic, 8);
    assert b[8..] == EncodeSigned(h.size, 8);
    SignedRoundTrip(h.magic, 8);
    SignedRoundTrip(h.size, 8);
  }

  /**
    A header announces a negative size, the case in which the readers'
    `make` panics, exactly when the top bit of its last byte is set; the
    same holds of the magic and its eighth byte.
  */
  lemma NegativeSizeBit(b: seq<byte>)
    requires |b| == HeadSize
    ensures Decode(b).size < 0 <==> b[HeadSize - 1] >= 128
    ensures Decode(b).magic < 0 <==> b[7] >= 128
  {
    SignBit(b[..8]);
    SignBit(b[8..]);
  }

  /** Every HeadSize-byte string is the encoding of the header it decodes to. */
  lemma EncodeDecode(b: seq<byte>)
    requires |b| == HeadSize
    ensures Encode(Decode(b)) == b
  {
    SignedInverse(b[..8]);
    SignedInverse(b[8..]);
    assert b == b[..8] + b[8..];
  }

  /** The header a sender puts in front of `body`: magic 1, size len(body). */
  function HeadFor(body: seq<byte>): (h: RpcHead)
    requires |body| <= MaxInt64
    ensures h.magic == 1 && h.size == |body|
  {
    RpcHead(Magic, |body|)
  }

  /** The bytes a sender puts on the stream for one message body. */
  function FrameOf(body: seq<byte>): (r: seq<byte>)
    requires |body| <= MaxInt64
    ensures |r| == HeadSize + |body|
    ensures Decode(r[..HeadSize]) == RpcHead(1, |body|)
    ensures r[HeadSize..] == body
  {
    var h := HeadFor(body);
    DecodeEncode(h);
    assert (Encode(h) + body)[..HeadSize] == Encode(h);
    Encode(h) + body
  }

  datatype FrameError =
    | ShortHeader   // the stream ended before HeadSize bytes
    | NegativeSize  // the header announces a negative size: `make` panics in the source
    | ShortBody     // the stream ended before `size` body bytes

  /** The outcome of reading one frame, with what is left on the stream. */
  datatype FrameRead =
    | Frame(body: seq<byte>, rest: seq<byte>)
    | Broken(error: FrameError, rest: seq<byte>)

  /**
    Reading one frame from the bytes `input` still to come on a stream:
    exactly HeadSize header bytes, then exactly `size` body bytes. A short
    read consumes what there was (`io.ReadAtLeast`).
  */
  function ReadFrame(input: seq<byte>): (r: FrameRead)
    ensures r.Frame? ==> |input| == HeadSize + |r.body| + |r.rest| && input[HeadSize..] == r.body + r.rest
    ensures r.Broken? && r.error != NegativeSize ==> r.rest == []
  {
    if |input| < HeadSize then Broken(ShortHeader, [])
    else
      var h := Decode(input[..HeadSize]);
      var after := input[HeadSize..];
      if h.size < 0 then Broken(NegativeSize, after)
      else if |after| < h.size then Broken(ShortBody, [])
      else
        Frame(after[..h.size], after[h.size..])
  }

  /**
    A successful read splits the input into a header announcing the body's
    length, the body and the rest; whatever the magic.
  */
  lemma ReadFrameSplits(input: seq<byte>)
    requires ReadFrame(input).Frame?
    ensures var r := ReadFrame(input);
      && input == Encode(RpcHead(Decode(input[..HeadSize]).magic, |r.body|)) + r.body + r.rest
  {
    EncodeDecode(input[..HeadSize]);
  }

  /**
    Frame round trip: a frame with any magic and the body's length, followed
    by anything, reads back as that body and leaves exactly the rest.
  */
  lemma ReadFrameOf(magic: Int64, body: seq<byte>, rest: seq<byte>)
    requires |body| <= MaxInt64
    ensures ReadFrame(Encode(RpcHead(magic, |body|)) + body + rest) == Frame(body, rest)
  {
    var h := RpcHead(magic, |body|);
    var input := Encode(h) + body + rest;
    assert input[..HeadSize] == Encode(h);
    DecodeEncode(h);
    assert input[HeadSize..] == body + rest;
  }

  /** What the matching send wrote reads back; HeadSize + |body| bytes are consumed. */
  lemma ReadFrameOfFrame(body: seq<byte>, rest: seq<byte>)
    requires |body| <= MaxInt64
    ensures ReadFrame(FrameOf(body) + rest) == Frame(body, rest)
    ensures |FrameOf(body) + rest| - |rest| == HeadSize + |body|
  {
    ReadFrameOf(Magic, body, rest);
  }
}
