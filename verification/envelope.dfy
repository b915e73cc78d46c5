/**
  The RPC envelope of common/common.go: one request or response message per
  frame, sent as header then marshalled body, read back as exactly one
  frame.

  The messages are `merry_proto.FileRequest` and `FileResponse`, which the
  source marshals with protobuf. The protobuf wire format is not part of
  this model: the messages are serialised by a fixed-layout stand-in whose
  round trip is proved below, so that the properties of the envelope hold
  for a serialiser that has one.
*/
module Envelope {
  import opened Bytes
  import opened Wrappers
  import opened Frame
  import opened Transport

  /** `merry_proto.StatusCode`: `kOK` and a failure status. */
  datatype StatusCode = StatusOk | StatusError

  /** `merry_proto.FileRequest`: path (a Go byte string), offset and bandwidth. */
  datatype FileRequest = FileRequest(path: seq<byte>, offset: Int64, bandwidth: Int32)

  /** `merry_proto.FileResponse`. */
  datatype FileResponse = FileResponse(status: StatusCode, size: Int64)

  datatype RpcError =
    | FrameFailed(cause: FrameError)  // the frame could not be read
    | Unparsable                      // `proto.Unmarshal` rejected the body
    | WriteFailed                     // `stream.Write` returned an error

  // ---- stand-in serialiser ----

  const RequestFixed: nat := 12

  function MarshalRequest(r: FileRequest): (b: seq<byte>)
    ensures |b| == RequestFixed + |r.path|
  {
    Int64Fits(r.offset);
    Int32Fits(r.bandwidth);
    EncodeSigned(r.offset, 8) + EncodeSigned(r.bandwidth, 4) + r.path
  }

  function UnmarshalRequest(b: seq<byte>): Option<FileRequest>
  {
    if |b| < RequestFixed then None
    else
      assert Pow256(8) == 0x1_0000_0000_0000_0000 && Pow256(4) == 0x1_0000_0000;
      Some(FileRequest(b[RequestFixed..], DecodeSigned(b[..8]), DecodeSigned(b[8..RequestFixed])))
  }

  lemma RequestRoundTrip(r: FileRequest)
    ensures UnmarshalRequest(MarshalRequest(r)) == Some(r)
  {
    Int64Fits(r.offset);
    Int32Fits(r.bandwidth);
    var b := MarshalRequest(r);
    assert b[..8] == EncodeSigned(r.offset, 8);
    assert b[8..RequestFixed] == EncodeSigned(r.bandwidth, 4);
    assert b[RequestFixed..] == r.path;
    SignedRoundTrip(r.offset, 8);
    SignedRoundTrip(r.bandwidth, 4);
  }

  /** Whatever unmarshals to a request is that request's marshalling. */
  lemma RequestUnique(b: seq<byte>)
    requires UnmarshalRequest(b).Some?
    ensures MarshalRequest(UnmarshalRequest(b).value) == b
  {
    SignedInverse(b[..8]);
    SignedInverse(b[8..RequestFixed]);
    assert b == b[..8] + b[8..RequestFixed] + b[RequestFixed..];
  }

  const ResponseWidth: nat := 9

  function StatusByte(s: StatusCode): byte
  {
    if s == StatusOk then 0 else 1
  }

  function MarshalResponse(r: FileResponse): (b: seq<byte>)
    ensures |b| == ResponseWidth
  {
    Int64Fits(r.size);
    [StatusByte(r.status)] + EncodeSigned(r.size, 8)
  }

  function UnmarshalResponse(b: seq<byte>): Option<FileResponse>
  {
    if |b| != ResponseWidth || b[0] > 1 then None
    else
      assert Pow256(8) == 0x1_0000_0000_0000_0000;
      Some(FileResponse(if b[0] == 0 then StatusOk else StatusError, DecodeSigned(b[1..])))
  }

  lemma ResponseRoundTrip(r: FileResponse)
    ensures UnmarshalResponse(MarshalResponse(r)) == Some(r)
  {
    Int64Fits(r.size);
    var b := MarshalResponse(r);
    assert b[1..] == EncodeSigned(r.size, 8);
    SignedRoundTrip(r.size, 8);
  }

  lemma ResponseUnique(b: seq<byte>)
    requires UnmarshalResponse(b).Some?
    ensures MarshalResponse(UnmarshalResponse(b).value) == b
  {
    SignedInverse(b[1..]);
    assert b == [b[0]] + b[1..];
  }

  // ---- one message per frame ----

  /** A request whose marshalled form fits the header's int64 size. */
  predicate Sendable(r: FileRequest)
  {
    |MarshalRequest(r)| <= MaxInt64
  }

  /**
    What reading a request frame from `input` yields (`RpcReadFileRequest`):
    a broken frame's error, or the one request whose encoding is the body.
  */
  function ParseRequest(input: seq<byte>): (r: Result<FileRequest, RpcError>)
    ensures r.Ok? ==> ReadFrame(input).Frame? && MarshalRequest(r.value) == ReadFrame(input).body
    ensures ReadFrame(input).Broken? ==> r == Err(FrameFailed(ReadFrame(input).error))
  {
    match ReadFrame(input)
    case Broken(e, _) => Err(FrameFailed(e))
    case Frame(body, _) =>
      match UnmarshalRequest(body)
      case Some(r) => RequestUnique(body); Ok(r)
      case None => Err(Unparsable)
  }

  /**
    What reading a response frame from `input` yields (`RpcReadFileResponse`):
    a broken frame's error, or the one response whose encoding is the body.
  */
  function ParseResponse(input: seq<byte>): (r: Result<FileResponse, RpcError>)
    ensures r.Ok? ==> ReadFrame(input).Frame? && MarshalResponse(r.value) == ReadFrame(input).body
    ensures ReadFrame(input).Broken? ==> r == Err(FrameFailed(ReadFrame(input).error))
  {
    match ReadFrame(input)
    case Broken(e, _) => Err(FrameFailed(e))
    case Frame(body, _) =>
      match UnmarshalResponse(body)
      case Some(r) => ResponseUnique(body); Ok(r)
      case None => Err(Unparsable)
  }

  /** The request a client sends is the request the server reads, and nothing more is consumed. */
  lemma RequestOnWire(req: FileRequest, rest: seq<byte>)
    requires Sendable(req)
    ensures ParseRequest(FrameOf(MarshalRequest(req)) + rest) == Ok(req)
    ensures ReadFrame(FrameOf(MarshalRequest(req)) + rest).rest == rest
  {
    ReadFrameOfFrame(MarshalRequest(req), rest);
    RequestRoundTrip(req);
  }

  /** The response a server sends is the response the client reads, and nothing more is consumed. */
  lemma ResponseOnWire(res: FileResponse, rest: seq<byte>)
    ensures ParseResponse(FrameOf(MarshalResponse(res)) + rest) == Ok(res)
    ensures ReadFrame(FrameOf(MarshalResponse(res)) + rest).rest == rest
  {
    ReadFrameOfFrame(MarshalResponse(res), rest);
    ResponseRoundTrip(res);
  }

  /**
    A successfully parsed request was framed with its own length: the input
    starts with a header announcing len(body) (any magic) and the body.
  */
  lemma ParsedRequestWasFramed(input: seq<byte>)
    requires ParseRequest(input).Ok?
    ensures var body := MarshalRequest(ParseRequest(input).value);
      exists m: Int64 :: input == Encode(RpcHead(m, |body|)) + body + ReadFrame(input).rest
  {
    ReadFrameSplits(input);
    RequestUnique(ReadFrame(input).body);
    var m := Decode(input[..HeadSize]).magic;
    assert input == Encode(RpcHead(m, |ReadFrame(input).body|)) + ReadFrame(input).body + ReadFrame(input).rest;
  }

  /**
    The header and body reads shared by `RpcReadFileRequest` and
    `RpcReadFileResponse`: read exactly HeadSize bytes, decode, then read
    exactly `size` bytes. The magic is not checked.
  */
  method ReadOneFrame(s: Stream) returns (r: FrameRead)
    modifies s`inbound
    ensures r == ReadFrame(old(s.inbound))
    ensures s.inbound == r.rest
  {
    var headBuff := s.ReadFull(HeadSize);
    if headBuff.None? {
      return Broken(ShortHeader, []);
    }
    var head := Decode(headBuff.value);
    if head.size < 0 {
      return Broken(NegativeSize, s.inbound);
    }
    var bodyBuff := s.ReadFull(head.size);
    if bodyBuff.None? {
      return Broken(ShortBody, []);
    }
    r := Frame(bodyBuff.value, s.inbound);
  }

  /** `RpcReadFileRequest`. */
  method ReadFileRequest(s: Stream) returns (r: Result<FileRequest, RpcError>)
    modifies s`inbound
    ensures r == ParseRequest(old(s.inbound))
    ensures s.inbound == ReadFrame(old(s.inbound)).rest
  {
    var frame := ReadOneFrame(s);
    if frame.Broken? {
      return Err(FrameFailed(frame.error));
    }
    var req := UnmarshalRequest(frame.body);
    if req.None? {
      return Err(Unparsable);
    }
    r := Ok(req.value);
  }

  /** `RpcReadFileResponse`. */
  method ReadFileResponse(s: Stream) returns (r: Result<FileResponse, RpcError>)
    modifies s`inbound
    ensures r == ParseResponse(old(s.inbound))
    ensures s.inbound == ReadFrame(old(s.inbound)).rest
  {
    var frame := ReadOneFrame(s);
    if frame.Broken? {
      return Err(FrameFailed(frame.error));
    }
    var res := UnmarshalResponse(frame.body);
    if res.None? {
      return Err(Unparsable);
    }
    r := Ok(res.value);
  }

  /** `RpcSendFileRequest`: header and body assembled in a buffer, one write. */
  method SendFileRequest(req: FileRequest, s: Stream) returns (err: Option<RpcError>)
    requires Sendable(req)
    modifies s`outbound, s`room
    ensures err.None? <==> |FrameOf(MarshalRequest(req))| <= old(s.room)
    ensures err.Some? ==> err.value == WriteFailed
    ensures err.None? ==> s.outbound == old(s.outbound) + FrameOf(MarshalRequest(req))
    ensures err.Some? ==>
      SentPrefix(old(s.outbound), s.outbound, FrameOf(MarshalRequest(req)))
      && |s.outbound| < |old(s.outbound)| + |FrameOf(MarshalRequest(req))|
    ensures s.room == if err.None? then old(s.room) - |FrameOf(MarshalRequest(req))| else 0
  {
    var bodyBuff := MarshalRequest(req);
    var head := HeadFor(bodyBuff);
    var headBuff := Encode(head);
    var buff := headBuff + bodyBuff;
    var ok := s.Write(buff);
    err := if ok then None else Some(WriteFailed);
  }

  /**
    `RpcSendFileResponse`: the header, then the body, in two writes; when
    the connection breaks the peer is left with a proper prefix of the
    frame, possibly a bare header or part of one.
  */
  method SendFileResponse(res: FileResponse, s: Stream) returns (err: Option<RpcError>)
    modifies s`outbound, s`room
    ensures err.None? <==> HeadSize + ResponseWidth <= old(s.room)
    ensures err.Some? ==> err.value == WriteFailed
    ensures err.None? ==> s.outbound == old(s.outbound) + FrameOf(MarshalResponse(res))
    ensures s.room == if err.None? then old(s.room) - HeadSize - ResponseWidth else 0
    ensures err.Some? ==>
      SentPrefix(old(s.outbound), s.outbound, FrameOf(MarshalResponse(res)))
      && |s.outbound| < |old(s.outbound)| + HeadSize + ResponseWidth
    ensures err.Some? && HeadSize <= old(s.room) ==>
      |old(s.outbound)| + HeadSize <= |s.outbound| && s.outbound[..|old(s.outbound)| + HeadSize] == old(s.outbound) + FrameOf(MarshalResponse(res))[..HeadSize]
  {
    var bodyBuff := MarshalResponse(res);
    var head := HeadFor(bodyBuff);
    var headBuff := Encode(head);
    assert FrameOf(bodyBuff) == headBuff + bodyBuff && FrameOf(bodyBuff)[..HeadSize] == headBuff;
    var ok := s.Write(headBuff);
    if !ok {
      PrefixOfFirst(old(s.outbound), s.outbound, headBuff, bodyBuff);
      return Some(WriteFailed);
    }
    ok := s.Write(bodyBuff);
    if !ok {
      PrefixAfterFirst(old(s.outbound), s.outbound, headBuff, bodyBuff);
      return Some(WriteFailed);
    }
    err := None;
  }
}
