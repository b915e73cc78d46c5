/**
  The per-stream handler of server/server.go: read one request, then either
  change the throttle's rate and acknowledge, or answer with the number of
  bytes left after the requested offset and stream them in chunks.

  The server's files are a map from path to what `os.Open` and `Stat` find:
  a file with its contents, or a file that opens but cannot be statted. A
  path missing from the map cannot be opened. The chunk-phase header's size
  rule is a parameter of the data branch.
*/
module Server {
  import opened Bytes
  import opened Wrappers
  import opened Frame
  import opened Transport
  import opened Files
  import opened Envelope
  import opened Throttle
  import opened Chunk

  datatype FsEntry = Readable(contents: Contents) | Unstattable

  type FileSystem = map<seq<byte>, FsEntry>

  /** How handling one stream ended. */
  datatype Served =
    | RequestUnreadable(cause: RpcError)   // returns silently, nothing sent
    | OpenFailed                          // returns silently, nothing sent
    | StatFailed                          // returns silently, nothing sent
    | ReplyFailed                         // the response could not be written
    | RateChanged(interval: Int32)        // acknowledged, one token taken
    | ChunksFailed(error: ChunkError)     // the response went out, the chunks did not
    | FileSent                            // response and chunks went out

  /** The dispatch: only a positive bandwidth is a rate change; -1, 0 and every negative value ask for data. */
  predicate IsRateChange(req: FileRequest)
  {
    req.bandwidth > 0
  }

  /**
    `1000000.0 / GetBandwidth()`: the untyped constant takes the int32 type
    of the bandwidth, so this is integer division, truncating.
  */
  function Interval(bandwidth: Int32): (r: Int32)
    requires bandwidth > 0
    ensures 0 <= r <= 1000000
    ensures r * bandwidth <= 1000000 < (r + 1) * bandwidth
  {
    1000000 / bandwidth
  }

  lemma IntervalOf100()
    ensures Interval(100) == 10000
  {
  }

  /** The acknowledgement of a rate change: status kOK, size left at zero. */
  function RateReply(): (r: FileResponse)
    ensures r.status == StatusOk && r.size == 0
  {
    FileResponse(StatusOk, 0)
  }

  /**
    The answer to a data request: status kOK and `stat.Size() - offset` in
    int64 arithmetic. Nothing checks the offset, so the size is the number
    of bytes after the offset only when the offset lies within the file.
  */
  function DataResponse(file: Contents, offset: Int64): (r: FileResponse)
    ensures r.status == StatusOk
    ensures 0 <= offset <= |file| ==> r.size == |Tail(file, offset)|
    ensures |file| < offset ==> r.size < 0
    ensures r.size % 0x1_0000_0000_0000_0000 == (|file| - offset) % 0x1_0000_0000_0000_0000
  {
    FileResponse(StatusOk, Wrap64(|file| - offset))
  }

  /** What handling a stream does when the connection holds: the outcome and every byte written. */
  datatype Plan = Plan(outcome: Served, output: seq<byte>)

  /** A rate change: the new interval and the acknowledgement. */
  function RatePlan(bandwidth: Int32): (r: Plan)
    requires bandwidth > 0
    ensures r.outcome == RateChanged(Interval(bandwidth))
    ensures |r.output| == HeadSize + ResponseWidth
  {
    Plan(RateChanged(Interval(bandwidth)), FrameOf(MarshalResponse(RateReply())))
  }

  /**
    A data request for an opened and statted file: the response, then the
    chunk phase, which refuses a negative offset once the response is out.
    `rule` is the size the chunk-phase header announces.
  */
  function DataPlan(rule: SizeRule, file: Contents, offset: Int64): (r: Plan)
    ensures r.outcome == FileSent <==> 0 <= offset
    ensures r.outcome != FileSent ==> r.outcome == ChunksFailed(SeekFailed)
    ensures |r.output| == HeadSize + ResponseWidth + (if offset < 0 then 0 else HeadSize + |Tail(file, offset)|)
  {
    var reply := FrameOf(MarshalResponse(DataResponse(file, offset)));
    if offset < 0 then Plan(ChunksFailed(SeekFailed), reply)
    else Plan(FileSent, reply + ChunkPhase(rule, file, offset))
  }

  /**
    The whole handler for the bytes the client sent: nothing is written
    unless the request parses and is a rate change, or names a file that
    opens and stats.
  */
  function ServePlan(rule: SizeRule, input: seq<byte>, fs: FileSystem): (r: Plan)
    ensures r.output != [] <==>
      ParseRequest(input).Ok? &&
      (IsRateChange(ParseRequest(input).value) ||
       (ParseRequest(input).value.path in fs && fs[ParseRequest(input).value.path].Readable?))
    ensures ParseRequest(input).Err? ==> r.outcome == RequestUnreadable(ParseRequest(input).error)
  {
    match ParseRequest(input)
    case Err(e) => Plan(RequestUnreadable(e), [])
    case Ok(req) => RequestPlan(rule, req, fs)
  }

  /**
    The handler once a request has been read: a rate change, or a data
    answer for a file that opens and stats; silence otherwise.
  */
  function RequestPlan(rule: SizeRule, req: FileRequest, fs: FileSystem): (r: Plan)
    ensures r.output != [] <==> IsRateChange(req) || (req.path in fs && fs[req.path].Readable?)
    ensures IsRateChange(req) ==> r.outcome.RateChanged?
  {
    if IsRateChange(req) then RatePlan(req.bandwidth)
    else if req.path !in fs then Plan(OpenFailed, [])
    else if fs[req.path].Unstattable? then Plan(StatFailed, [])
    else DataPlan(rule, fs[req.path].contents, req.offset)
  }

  /** True when `input` starts with a well-formed rate-change request. */
  predicate RateRequestIn(input: seq<byte>)
  {
    ParseRequest(input).Ok? && IsRateChange(ParseRequest(input).value)
  }

  /**
    A data plan always sends something: the client parses the data response
    from it, and after that frame finds the chunk phase unless the offset
    was negative.
  */
  lemma DataPlanParsed(rule: SizeRule, file: Contents, offset: Int64)
    ensures var out := DataPlan(rule, file, offset).output;
      && out != []
      && ParseResponse(out) == Ok(DataResponse(file, offset))
      && (0 <= offset ==> ReadFrame(out).rest == ChunkPhase(rule, file, offset))
  {
    var reply := FrameOf(MarshalResponse(DataResponse(file, offset)));
    if offset < 0 {
      ResponseOnWire(DataResponse(file, offset), []);
      assert reply + [] == reply;
    } else {
      ResponseOnWire(DataResponse(file, offset), ChunkPhase(rule, file, offset));
    }
  }

  /**
    Nothing is sent unless the request was read and the file opened and
    statted; a data response is always followed by the chunk phase, never
    preceded by it.
  */
  lemma ResponseComesFirst(rule: SizeRule, input: seq<byte>, fs: FileSystem)
    requires ParseRequest(input).Ok? && !IsRateChange(ParseRequest(input).value)
    ensures var req := ParseRequest(input).value;
      var out := ServePlan(rule, input, fs).output;
      && (out != [] <==> req.path in fs && fs[req.path].Readable?)
      && (out != [] ==> ParseResponse(out) == Ok(DataResponse(fs[req.path].contents, req.offset)))
      && (out != [] && 0 <= req.offset ==> ReadFrame(out).rest == ChunkPhase(rule, fs[req.path].contents, req.offset))
  {
    var req := ParseRequest(input).value;
    if req.path in fs && fs[req.path].Readable? {
      assert ServePlan(rule, input, fs) == DataPlan(rule, fs[req.path].contents, req.offset);
      DataPlanParsed(rule, fs[req.path].contents, req.offset);
    }
  }

  /** The rate branch: set the interval, acknowledge, then take one token. */
  method ServeRate(s: Stream, bandwidth: Int32, th: TokenChannel) returns (served: Served)
    requires bandwidth > 0 && th.Valid()
    modifies s`outbound, s`room, th
    ensures th.Valid()
    ensures SentPrefix(old(s.outbound), s.outbound, RatePlan(bandwidth).output)
    ensures |RatePlan(bandwidth).output| <= old(s.room) ==>
      s.outbound == old(s.outbound) + RatePlan(bandwidth).output && served == RatePlan(bandwidth).outcome
    ensures old(s.room) < |RatePlan(bandwidth).output| ==> served == ReplyFailed
    ensures th.intervalMicros == Interval(bandwidth)
    ensures served.RateChanged? || served.ReplyFailed?
    ensures served.RateChanged? ==> th.taken == old(th.taken) + 1
    ensures served.ReplyFailed? ==> th.taken == old(th.taken)
  {
    ghost var plan := RatePlan(bandwidth);
    assert plan.output == FrameOf(MarshalResponse(RateReply()));
    var interval := Interval(bandwidth);
    th.SetInterval(interval);
    var err := SendFileResponse(RateReply(), s);
    if err.Some? {
      return ReplyFailed;
    }
    th.Take();
    served := RateChanged(interval);
  }

  /** The chunk phase as the handler sees it: how it ended, and a prefix of `ChunkPhase` on the stream. */
  method ServeChunks(rule: SizeRule, s: Stream, file: Contents, offset: Int64, th: TokenChannel) returns (served: Served)
    requires th.Valid()
    modifies s`outbound, s`room, th`held, th`produced, th`taken
    ensures th.Valid()
    ensures old(th.taken) <= th.taken
    ensures offset < 0 ==> served == ChunksFailed(SeekFailed) && s.outbound == old(s.outbound)
    ensures 0 <= offset ==>
      && SentPrefix(old(s.outbound), s.outbound, ChunkPhase(rule, file, offset))
      && (served == FileSent <==> |ChunkPhase(rule, file, offset)| <= old(s.room))
      && (served == FileSent ==> s.outbound == old(s.outbound) + ChunkPhase(rule, file, offset))
      && (served != FileSent ==> served == ChunksFailed(ChunkWriteFailed))
  {
    var cerr, chunks := SendFileChunk(rule, th, file, offset, s);
    if 0 <= offset && cerr.None? {
      assert ChunkPhase(rule, file, offset)[..|s.outbound| - |old(s.outbound)|] == ChunkPhase(rule, file, offset);
    }
    served := if cerr.Some? then ChunksFailed(cerr.value) else FileSent;
  }

  /** The response frame, then the chunk phase unless the offset is negative. */
  lemma DataPlanParts(rule: SizeRule, file: Contents, offset: Int64)
    ensures var reply := FrameOf(MarshalResponse(DataResponse(file, offset)));
      && |reply| == HeadSize + ResponseWidth
      && (offset < 0 ==> DataPlan(rule, file, offset) == Plan(ChunksFailed(SeekFailed), reply))
      && (0 <= offset ==> DataPlan(rule, file, offset) == Plan(FileSent, reply + ChunkPhase(rule, file, offset)))
  {
  }

  /** The data branch: the response, then the chunk phase from the offset. */
  method ServeData(rule: SizeRule, s: Stream, file: Contents, offset: Int64, th: TokenChannel) returns (served: Served)
    requires th.Valid()
    modifies s`outbound, s`room, th`held, th`produced, th`taken
    ensures th.Valid()
    ensures SentPrefix(old(s.outbound), s.outbound, DataPlan(rule, file, offset).output)
    ensures |DataPlan(rule, file, offset).output| <= old(s.room) ==>
      s.outbound == old(s.outbound) + DataPlan(rule, file, offset).output && served == DataPlan(rule, file, offset).outcome
    ensures old(s.room) < |DataPlan(rule, file, offset).output| ==>
      served == ReplyFailed || served == ChunksFailed(ChunkWriteFailed)
    ensures old(th.taken) <= th.taken
    ensures served.ReplyFailed? ==> th.taken == old(th.taken)
  {
    ghost var out0 := s.outbound;
    DataPlanParts(rule, file, offset);
    ghost var reply := FrameOf(MarshalResponse(DataResponse(file, offset)));
    var err := SendFileResponse(DataResponse(file, offset), s);
    if err.Some? {
      PrefixOfFirst(out0, s.outbound, reply, if offset < 0 then [] else ChunkPhase(rule, file, offset));
      assert reply + [] == reply;
      return ReplyFailed;
    }
    served := ServeChunks(rule, s, file, offset, th);
    if 0 <= offset {
      PrefixAfterFirst(out0, s.outbound, reply, ChunkPhase(rule, file, offset));
    } else {
      assert s.outbound == out0 + reply + [];
      PrefixAfterFirst(out0, s.outbound, reply, []);
      assert reply + [] == reply;
    }
  }

  /**
    The dispatch of the handler closure on a request it has read: a
    positive bandwidth changes the rate, anything else asks for data.
  */
  method ServeRequest(rule: SizeRule, s: Stream, req: FileRequest, fs: FileSystem, th: TokenChannel)
    returns (served: Served)
    requires th.Valid()
    modifies s`outbound, s`room, th
    ensures th.Valid()
    ensures SentPrefix(old(s.outbound), s.outbound, RequestPlan(rule, req, fs).output)
    ensures |RequestPlan(rule, req, fs).output| <= old(s.room) ==>
      s.outbound == old(s.outbound) + RequestPlan(rule, req, fs).output && served == RequestPlan(rule, req, fs).outcome
    ensures old(s.room) < |RequestPlan(rule, req, fs).output| ==>
      served == ReplyFailed || served == ChunksFailed(ChunkWriteFailed)
    ensures th.intervalMicros == if IsRateChange(req) then Interval(req.bandwidth) else old(th.intervalMicros)
    ensures IsRateChange(req) ==> served.RateChanged? || served.ReplyFailed?
    ensures served.RateChanged? ==> th.taken == old(th.taken) + 1
    ensures served.ReplyFailed? ==> th.taken == old(th.taken)
    ensures old(th.taken) <= th.taken
  {
    ghost var plan := RequestPlan(rule, req, fs);
    if req.bandwidth > 0 {
      assert plan == RatePlan(req.bandwidth);
      served := ServeRate(s, req.bandwidth, th);
      return;
    }
    if req.path !in fs {
      assert plan == Plan(OpenFailed, []);
      return OpenFailed;
    }
    var entry := fs[req.path];
    if entry.Unstattable? {
      assert plan == Plan(StatFailed, []);
      return StatFailed;
    }
    assert plan == DataPlan(rule, entry.contents, req.offset);
    served := ServeData(rule, s, entry.contents, req.offset, th);
  }

  /**
    The handler closure of server/server.go for one accepted stream. When
    the connection breaks, what went out is a prefix of what the plan
    writes.
  */
  method ServeStream(rule: SizeRule, s: Stream, fs: FileSystem, th: TokenChannel) returns (served: Served)
    requires th.Valid()
    modifies s, th
    ensures th.Valid()
    ensures s.inbound == ReadFrame(old(s.inbound)).rest
    ensures SentPrefix(old(s.outbound), s.outbound, ServePlan(rule, old(s.inbound), fs).output)
    ensures |ServePlan(rule, old(s.inbound), fs).output| <= old(s.room) ==>
      s.outbound == old(s.outbound) + ServePlan(rule, old(s.inbound), fs).output && served == ServePlan(rule, old(s.inbound), fs).outcome
    ensures old(s.room) < |ServePlan(rule, old(s.inbound), fs).output| ==>
      served == ReplyFailed || served == ChunksFailed(ChunkWriteFailed)
    ensures th.intervalMicros ==
      if RateRequestIn(old(s.inbound)) then Interval(ParseRequest(old(s.inbound)).value.bandwidth) else old(th.intervalMicros)
    ensures served.RateChanged? ==> th.taken == old(th.taken) + 1
    ensures RateRequestIn(old(s.inbound)) ==> served.RateChanged? || served.ReplyFailed?
    ensures old(th.taken) <= th.taken
    ensures served.ReplyFailed? ==> th.taken == old(th.taken)
  {
    ghost var input := s.inbound;
    ghost var plan := ServePlan(rule, input, fs);
    var r := ReadFileRequest(s);
    assert r == ParseRequest(input);
    if r.Err? {
      assert plan == Plan(RequestUnreadable(r.error), []);
      assert !RateRequestIn(input);
      return RequestUnreadable(r.error);
    }
    assert plan == RequestPlan(rule, r.value, fs);
    assert RateRequestIn(input) == IsRateChange(r.value);
    served := ServeRequest(rule, s, r.value, fs, th);
  }
}
