/**
  One client and one server on one stream, run one after the other: the
  client's request phase, the server's handler, then the client's receive
  phase. Each side's stream is its own `Stream` object and the transport
  delivers what one end wrote to the other end.
*/
module Session {
  import opened Bytes
  import opened Wrappers
  import opened Frame
  import opened Transport
  import opened Files
  import opened Envelope
  import opened Throttle
  import opened Chunk
  import opened Server
  import opened Client

  /**
    The server decides between the two branches as the client meant it
    only when the int32 truncation of `-b` keeps its sign: a rate change
    exactly when `-b` is positive and its low 32 bits, read as an int32,
    are positive.
  */
  lemma DispatchAgrees(b: Int64, remote: seq<byte>, offset: Int64)
    ensures IsRateChange(PlanRequest(b, remote, offset)) <==> b > 0 && 0 < b % 0x1_0000_0000 < 0x8000_0000
    ensures 0 < b <= 0x7FFF_FFFF ==> IsRateChange(PlanRequest(b, remote, offset))
  {
    if b > 0 {
      var w := PlanRequest(b, remote, offset).bandwidth;
      if w >= 0 {
        assert w == b % 0x1_0000_0000;
      } else {
        assert b % 0x1_0000_0000 == w as int + 0x1_0000_0000;
      }
    }
  }

  /** A data request for a readable file is answered by that file's data plan. */
  lemma DataRequestServed(rule: SizeRule, remote: seq<byte>, offset: Int64, fs: FileSystem)
    requires remote in fs && fs[remote].Readable? && PathFits(remote)
    ensures ServePlan(rule, FrameOf(MarshalRequest(PlanRequest(-1, remote, offset))), fs)
      == DataPlan(rule, fs[remote].contents, offset)
    ensures 0 <= offset <= |fs[remote].contents| ==>
      |DataPlan(rule, fs[remote].contents, offset).output| == ReplyRoom(fs[remote].contents, offset)
  {
    var req := PlanRequest(-1, remote, offset);
    var frame := FrameOf(MarshalRequest(req));
    RequestOnWire(req, []);
    assert frame + [] == frame;
  }

  /**
    What the client finds in the data plan it receives: the response with
    the bytes left after the offset, then a header announcing the size the
    rule gives (the whole file as written, the bytes left when corrected)
    and the bytes left themselves.
  */
  lemma DataPlanOnWire(rule: SizeRule, file: Contents, offset: Int64)
    requires 0 <= offset <= |file|
    ensures var out := DataPlan(rule, file, offset).output;
      && ParseResponse(out) == Ok(DataResponse(file, offset))
      && DataResponse(file, offset).size == |file| - offset
      && ReadFrame(out).rest == ChunkPhase(rule, file, offset)
      && Decode(ChunkPhase(rule, file, offset)[..HeadSize]).size == (if rule.WholeFile? then |file| else |file| - offset)
      && ChunkPhase(rule, file, offset)[HeadSize..] == file[offset..]
  {
    ResponseOnWire(DataResponse(file, offset), ChunkPhase(rule, file, offset));
    DecodeEncode(ChunkHead(rule, file, offset));
  }

  /** Everything the server writes for a fetch of `file` from `offset`. */
  function ReplyRoom(file: Contents, offset: int): nat
    requires 0 <= offset <= |file|
  {
    HeadSize + ResponseWidth + HeadSize + (|file| - offset)
  }

  /**
    What a fetch of `file` from `offset` reports when the whole answer
    arrives: the number of bytes that were missing, unless the header
    announced the whole file after a non-empty, incomplete local prefix;
    then the stream ends before the announced size is reached.
  */
  function FetchResult(rule: SizeRule, file: Contents, offset: int): Result<Int64, ClientError>
    requires 0 <= offset <= |file|
  {
    if rule.Remaining? || offset == 0 || offset == |file| then Ok(|file| - offset)
    else Err(ReceiveFailed(StreamEnded))
  }

  /**
    A client whose local file holds the first `offset` bytes of `file`, and
    that receives the server's whole answer to its request from `offset`,
    ends with the whole file under either rule, and reports the bytes that
    were missing, or, as written after a partial local copy, that the
    stream ended.
  */
  lemma ResumedReceive(rule: SizeRule, file: Contents, offset: Int64, input: seq<byte>, d0: seq<byte>, p0: nat,
                        r: Result<Int64, ClientError>, count: nat, d: seq<byte>, p: nat)
    requires 0 <= offset <= |file|
    requires input == DataPlan(rule, file, offset).output && d0 == file[..offset] && p0 == offset
    requires Received(input, d0, p0, r, count, d, p)
    ensures d == file && r == FetchResult(rule, file, offset)
    ensures r.Ok? <==> rule.Remaining? || offset == 0 || offset == |file|
  {
    DataPlanOnWire(rule, file, offset);
    ChunkHeadCompletes(rule, file, offset);
    if offset < |file| {
      assert count == |file| - offset;
      assert file[offset..][..count] == file[offset..];
      WriteAtCompletes(file[..offset], file);
    } else {
      assert file[..offset] == file;
    }
  }

  /**
    The server's end of one connection: a stream that carries `input` from
    the client and `room` bytes back, handled once. What it returns is what
    the client receives.
  */
  method ServeConnection(rule: SizeRule, input: seq<byte>, fs: FileSystem, th: TokenChannel, room: nat)
    returns (output: seq<byte>, served: Served)
    requires th.Valid()
    modifies th
    ensures th.Valid()
    ensures SentPrefix([], output, ServePlan(rule, input, fs).output)
    ensures |ServePlan(rule, input, fs).output| <= room ==> output == ServePlan(rule, input, fs).output && served == ServePlan(rule, input, fs).outcome
    ensures th.intervalMicros ==
      if RateRequestIn(input) then Interval(ParseRequest(input).value.bandwidth) else old(th.intervalMicros)
    ensures served.RateChanged? ==> th.taken == old(th.taken) + 1
    ensures old(th.taken) <= th.taken
  {
    ghost var plan := ServePlan(rule, input, fs);
    var ss := new Stream(input, room);
    assert ss.inbound == input && ss.outbound == [] && ss.room == room;
    served := ServeStream(rule, ss, fs, th);
    output := ss.outbound;
    assert [] + ServePlan(rule, input, fs).output == ServePlan(rule, input, fs).output;
  }

  /** The server's file at `remote` starts with `have`. */
  predicate ResumesFrom(fs: FileSystem, remote: seq<byte>, have: seq<byte>)
  {
    remote in fs && fs[remote].Readable? && |have| <= |fs[remote].contents| && have == fs[remote].contents[..|have|]
  }

  /**
    The rest of a data fetch once the request is on the client's stream:
    the server answers it, the transport delivers the answer, and the
    client receives into its local file.
  */
  method CompleteFetch(rule: SizeRule, cs: Stream, f: LocalFile, remote: seq<byte>, offset: Int64, fs: FileSystem,
                       th: TokenChannel, serverRoom: nat, ghost have: seq<byte>)
    returns (r: Result<Int64, ClientError>, data: seq<byte>)
    requires th.Valid() && PathFits(remote)
    requires cs.inbound == [] && cs.outbound == FrameOf(MarshalRequest(PlanRequest(-1, remote, offset)))
    requires f.data == have && f.pos == offset && offset == |have|
    modifies th, cs`inbound, f
    ensures th.Valid()
    ensures data == f.data
    ensures ResumesFrom(fs, remote, have) && ReplyRoom(fs[remote].contents, offset) <= serverRoom ==>
      data == fs[remote].contents && r == FetchResult(rule, fs[remote].contents, offset)
  {
    ghost var resumable := ResumesFrom(fs, remote, have) && ReplyRoom(fs[remote].contents, offset) <= serverRoom;
    if resumable {
      DataRequestServed(rule, remote, offset, fs);
    }
    var reply, served := ServeConnection(rule, cs.outbound, fs, th, serverRoom);
    assert resumable ==> reply == DataPlan(rule, fs[remote].contents, offset).output;
    cs.Deliver(reply);
    ghost var input, d0, p0 := cs.inbound, f.data, f.pos;
    assert input == reply;
    var count;
    r, count := ReceiveFile(cs, f);
    if resumable {
      ResumedReceive(rule, fs[remote].contents, offset, input, d0, p0, r, count, f.data, f.pos);
    }
    data := f.data;
  }

  /**
    The client's stream once the request phase has run: the request is on
    it when that phase succeeded, and the fetch fails with its error when
    it did not.
  */
  method FinishFetch(rule: SizeRule, cs: Stream, f: LocalFile, remote: seq<byte>, offset: Int64, err: Option<RpcError>,
                     fs: FileSystem, th: TokenChannel, clientRoom: nat, serverRoom: nat, ghost have: seq<byte>)
    returns (r: Result<Int64, ClientError>, data: seq<byte>)
    requires th.Valid() && PathFits(remote)
    requires err.None? <==> RequestRoom(remote) <= clientRoom
    requires cs.inbound == [] && (err.None? ==> cs.outbound == FrameOf(MarshalRequest(PlanRequest(-1, remote, offset))))
    requires f.data == have && f.pos == offset && offset == |have|
    modifies th, cs`inbound, f
    ensures th.Valid()
    ensures (&& ResumesFrom(fs, remote, have) && RequestRoom(remote) <= clientRoom
             && ReplyRoom(fs[remote].contents, |have|) <= serverRoom) ==>
      data == fs[remote].contents && r == FetchResult(rule, fs[remote].contents, |have|)
  {
    if err.Some? {
      return Err(RequestUnsent(err.value)), f.data;
    }
    r, data := CompleteFetch(rule, cs, f, remote, offset, fs, th, serverRoom, have);
  }

  /**
    A data fetch end to end: resolve the local name, open the local file at
    the resume offset, send the request, let the server handle it, then
    receive. When the local file starts as a copy of the beginning of the
    remote file and the connection carries everything, the local file ends
    as a copy of the whole remote file under either rule. With the header
    as written, a fetch resumed from a partial local copy then reports that
    the stream ended; otherwise it reports the bytes that were missing.
  */
  method Fetch(rule: SizeRule, remote: seq<byte>, o: seq<byte>, local: LocalFs, fs: FileSystem, th: TokenChannel,
               clientRoom: nat, serverRoom: nat)
    returns (r: Result<Int64, ClientError>, name: seq<byte>, data: seq<byte>)
    requires th.Valid() && PathFits(remote)
    modifies th
    ensures th.Valid()
    ensures name == LocalName(remote, o)
    ensures (&& ResumesFrom(fs, remote, Lookup(local, name).GetOr([])) && RequestRoom(remote) <= clientRoom
             && ReplyRoom(fs[remote].contents, |Lookup(local, name).GetOr([])|) <= serverRoom) ==>
      && data == fs[remote].contents
      && r == FetchResult(rule, fs[remote].contents, |Lookup(local, name).GetOr([])|)
  {
    var cs := new Stream([], clientRoom);
    var f, offset, err;
    name, f, offset, err := RequestFile(cs, remote, o, local);
    r, data := FinishFetch(rule, cs, f, remote, offset, err, fs, th, clientRoom, serverRoom, Lookup(local, name).GetOr([]));
  }

  /** A rate request the client plans for `b` in int32 range is served as that rate change. */
  lemma RateRequestServed(rule: SizeRule, b: Int64, fs: FileSystem)
    requires 0 < b <= 0x7FFF_FFFF
    ensures var input := FrameOf(MarshalRequest(PlanRequest(b, [], 0)));
      && RateRequestIn(input) && ParseRequest(input).value.bandwidth == b
      && ServePlan(rule, input, fs) == RatePlan(b)
  {
    var req := PlanRequest(b, [], 0);
    var frame := FrameOf(MarshalRequest(req));
    RequestOnWire(req, []);
    assert frame + [] == frame;
  }

  /** The acknowledgement of a rate change reads back as kOK. */
  lemma RateReplyOnWire(b: Int32)
    requires b > 0
    ensures ParseResponse(RatePlan(b).output) == Ok(RateReply())
  {
    ResponseOnWire(RateReply(), []);
    assert RatePlan(b).output + [] == RatePlan(b).output;
  }

  /**
    The server's side of a rate change: the handler reads the client's
    request frame, sets the interval and, when the acknowledgement fits,
    takes one token.
  */
  method ServeRateRequest(rule: SizeRule, b: Int64, fs: FileSystem, th: TokenChannel, room: nat)
    returns (reply: seq<byte>)
    requires 0 < b <= 0x7FFF_FFFF && th.Valid()
    modifies th
    ensures th.Valid()
    ensures th.intervalMicros == 1000000 / b
    ensures HeadSize + ResponseWidth <= room ==>
      reply == RatePlan(b).output && th.taken == old(th.taken) + 1
  {
    RateRequestServed(rule, b, fs);
    var served;
    reply, served := ServeConnection(rule, FrameOf(MarshalRequest(PlanRequest(b, [], 0))), fs, th, room);
  }

  /**
    The rest of a rate change once the request is on the client's stream:
    the server handles it, the transport delivers the acknowledgement, and
    the client reads it.
  */
  method CompleteRate(rule: SizeRule, cs: Stream, b: Int64, fs: FileSystem, th: TokenChannel, serverRoom: nat)
    returns (r: Result<StatusCode, ClientError>)
    requires 0 < b <= 0x7FFF_FFFF && th.Valid()
    requires cs.inbound == [] && cs.outbound == FrameOf(MarshalRequest(PlanRequest(b, [], 0)))
    modifies th, cs`inbound
    ensures th.Valid()
    ensures HeadSize + ResponseWidth <= serverRoom ==>
      && r == Ok(StatusOk)
      && th.intervalMicros == 1000000 / b
      && th.taken == old(th.taken) + 1
  {
    var reply := ServeRateRequest(rule, b, fs, th, serverRoom);
    cs.Deliver(reply);
    assert cs.inbound == reply;
    RateReplyOnWire(b);
    r := ReceiveRateReply(cs);
  }

  /**
    A rate change end to end: with a bandwidth that fits int32, the server
    sets the interval to 1000000 / b, acknowledges with kOK and takes one
    token; the client reads the acknowledgement.
  */
  method SetRate(rule: SizeRule, b: Int64, fs: FileSystem, th: TokenChannel, clientRoom: nat, serverRoom: nat)
    returns (r: Result<StatusCode, ClientError>)
    requires 0 < b <= 0x7FFF_FFFF && th.Valid()
    modifies th
    ensures th.Valid()
    ensures RequestRoom([]) <= clientRoom && HeadSize + ResponseWidth <= serverRoom ==>
      && r == Ok(StatusOk)
      && th.intervalMicros == 1000000 / b
      && th.taken == old(th.taken) + 1
  {
    var cs := new Stream([], clientRoom);
    var err := SendRequest(cs, b, [], 0);
    assert |FrameOf(MarshalRequest(PlanRequest(b, [], 0)))| == RequestRoom([]);
    if err.Some? {
      return Err(RequestUnsent(err.value));
    }
    r := CompleteRate(rule, cs, b, fs, th, serverRoom);
  }
}
