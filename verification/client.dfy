/**
  The client of client/client.go: resolve the local file name, open the
  local file and pick the resume offset, send either a rate-change or a
  data request, and receive the reply (and, for a data request with bytes
  to come, the chunks).

  The client is split at the point where it waits for the server: the
  request phase writes the request, the receive phase reads what came back.
  Flag parsing, the QUIC dial, printing and timing are not part of this
  model; the flags are parameters.
*/
module Client {
  import opened Bytes
  import opened Wrappers
  import opened Frame
  import opened Transport
  import opened Files
  import opened Envelope
  import opened Chunk

  const Slash: byte := 47
  const Dot: byte := 46

  // ---- path.Base ----

  /** `p` without its trailing slashes. */
  function StripSlashes(p: seq<byte>): (r: seq<byte>)
    ensures |r| <= |p| && r == p[..|r|]
    ensures r == [] || r[|r| - 1] != Slash
    ensures forall i | |r| <= i < |p| :: p[i] == Slash
  {
    if p != [] && p[|p| - 1] == Slash then StripSlashes(p[..|p| - 1]) else p
  }

  /** The bytes of `p` after its last slash (all of `p` when it has none). */
  function AfterLastSlash(p: seq<byte>): (r: seq<byte>)
    ensures |r| <= |p| && r == p[|p| - |r|..]
    ensures forall i | 0 <= i < |r| :: r[i] != Slash
    ensures |r| < |p| ==> p[|p| - |r| - 1] == Slash
  {
    if p == [] || p[|p| - 1] == Slash then []
    else
      var r := AfterLastSlash(p[..|p| - 1]) + [p[|p| - 1]];
      assert p[|p| - |r|..] == p[..|p| - 1][|p| - |r|..] + [p[|p| - 1]];
      r
  }

  /**
    `path.Base`: the last element of a slash-separated path, ignoring
    trailing slashes; "." for the empty path and "/" for a path of slashes.
  */
  function Base(p: seq<byte>): (r: seq<byte>)
    ensures r != []
    ensures r == [Slash] || forall i | 0 <= i < |r| :: r[i] != Slash
    ensures p == [] ==> r == [Dot]
  {
    if p == [] then [Dot]
    else
      var e := AfterLastSlash(StripSlashes(p));
      if e == [] then [Slash] else e
  }

  /** A name without slashes after a directory prefix is what remains after the last slash. */
  lemma {:induction false} AfterLastSlashJoin(d: seq<byte>, n: seq<byte>)
    requires d == [] || d[|d| - 1] == Slash
    requires forall i | 0 <= i < |n| :: n[i] != Slash
    ensures AfterLastSlash(d + n) == n
  {
    if n == [] {
      assert d + n == d;
    } else {
      var m := n[..|n| - 1];
      AfterLastSlashJoin(d, m);
      assert (d + n)[..|d + n| - 1] == d + m;
    }
  }

  /** The base of a directory path followed by a plain name is that name. */
  lemma BaseOfName(d: seq<byte>, n: seq<byte>)
    requires d == [] || d[|d| - 1] == Slash
    requires n != [] && forall i | 0 <= i < |n| :: n[i] != Slash
    ensures Base(d + n) == n
  {
    assert StripSlashes(d + n) == d + n;
    AfterLastSlashJoin(d, n);
  }

  /** Taking the base twice changes nothing. */
  lemma BaseIdempotent(p: seq<byte>)
    ensures Base(Base(p)) == Base(p)
  {
    var b := Base(p);
    if b == [Slash] {
      assert StripSlashes(b) == [];
    } else {
      BaseOfName([], b);
      assert [] + b == b;
    }
  }

  // ---- local name and resume offset ----

  predicate EndsWithSlash(o: seq<byte>)
  {
    o != [] && o[|o| - 1] == Slash
  }

  /** A file placed in a directory keeps its base name, unless that base is the root. */
  lemma BaseInDirectory(d: seq<byte>, p: seq<byte>)
    requires EndsWithSlash(d)
    ensures Base(p) != [Slash] ==> Base(d + Base(p)) == Base(p)
  {
    if Base(p) != [Slash] {
      BaseOfName(d, Base(p));
    }
  }

  /**
    The local file name from the remote path and the `-o` flag: the remote
    path's base when `-o` is empty, that base inside the directory `-o`
    names when it ends in a slash, and `-o` itself otherwise.
  */
  function LocalName(remote: seq<byte>, o: seq<byte>): (r: seq<byte>)
    ensures o == [] ==> r == Base(remote)
    ensures EndsWithSlash(o) ==> |o| < |r| && r == o + Base(remote)
    ensures o != [] && !EndsWithSlash(o) ==> r == o
  {
    var base := Base(remote);
    if o == [] then base
    else if EndsWithSlash(o) then o + base
    else o
  }

  /**
    Without `-o`, or with `-o` naming a directory, the local file has the
    remote file's base name (unless the remote path is all slashes).
  */
  lemma LocalNameKeepsBase(remote: seq<byte>, o: seq<byte>)
    requires o == [] || EndsWithSlash(o)
    requires Base(remote) != [Slash]
    ensures Base(LocalName(remote, o)) == Base(remote)
  {
    if o == [] {
      BaseIdempotent(remote);
    } else {
      BaseInDirectory(o, remote);
    }
  }

  /** The base of "/d/x" is "x". */
  lemma BaseExample()
    ensures Base([47, 100, 47, 120]) == [120]
  {
    var dir: seq<byte>, name: seq<byte> := [47, 100, 47], [120];
    BaseOfName(dir, name);
    assert dir + name == [47, 100, 47, 120];
  }

  /**
    With `-o` naming a directory, the local file keeps the remote file's
    name: the file fetched as "/d/x" into "o/" is "o/x".
  */
  lemma LocalNameExample()
    ensures LocalName([47, 100, 47, 120], [111, 47]) == [111, 47, 120]
    ensures LocalName([47, 100, 47, 120], []) == [120]
    ensures LocalName([47, 100, 47, 120], [111]) == [111]
  {
    var remote: seq<byte> := [47, 100, 47, 120];
    BaseExample();
    assert LocalName(remote, []) == Base(remote);
    assert LocalName(remote, [111, 47]) == [111, 47] + Base(remote);
  }

  /**
    The resume offset: 0 for a file that does not exist yet (it is created
    empty), otherwise the size of what is already there.
  */
  function ResumeOffset(existing: Option<Contents>): (offset: Int64)
    ensures existing.None? ==> offset == 0
    ensures existing.Some? ==> offset == |existing.value| && offset >= 0
  {
    match existing
    case None => 0
    case Some(data) => |data|
  }

  /**
    Stat the local name, open the file (created empty when missing, kept
    otherwise) and seek to the resume offset.
  */
  method OpenLocal(existing: Option<Contents>) returns (f: LocalFile, offset: Int64)
    ensures fresh(f)
    ensures offset == ResumeOffset(existing)
    ensures f.data == existing.GetOr([]) && f.pos == offset
  {
    if existing.None? {
      offset := 0;
      f := new LocalFile([]);
    } else {
      offset := |existing.value|;
      f := new LocalFile(existing.value);
    }
    f.Seek(offset);
  }

  /** The client's local files by name. */
  type LocalFs = map<seq<byte>, Contents>

  /** What `os.Stat` finds under `name`: the file's contents, or nothing. */
  function Lookup(local: LocalFs, name: seq<byte>): (r: Option<Contents>)
    ensures r.Some? <==> name in local
    ensures r.Some? ==> r.value == local[name]
  {
    if name in local then Some(local[name]) else None
  }

  // ---- requests ----

  /**
    The request the client sends: a rate change when `-b` is positive, its
    value truncated to int32 (`int32(ff.b)`), with no path and offset 0;
    otherwise the remote path, the resume offset and bandwidth -1.
  */
  function PlanRequest(b: Int64, remote: seq<byte>, offset: Int64): (r: FileRequest)
    ensures b > 0 ==> r.path == [] && r.offset == 0 && r.bandwidth % 0x1_0000_0000 == b % 0x1_0000_0000
    ensures 0 < b <= 0x7FFF_FFFF ==> r.bandwidth == b
    ensures b <= 0 ==> r.path == remote && r.offset == offset && r.bandwidth == -1
  {
    if b > 0 then FileRequest([], 0, Wrap32(b))
    else FileRequest(remote, offset, -1)
  }

  /** `-b 4294967296` is positive, but truncates to bandwidth 0. */
  lemma RateTruncates()
    ensures PlanRequest(0x1_0000_0000, [], 0).bandwidth == 0
  {
  }

  /** A request whose path fits every frame the client can send. */
  predicate PathFits(remote: seq<byte>)
  {
    |remote| + RequestFixed <= MaxInt64
  }

  lemma PlannedSendable(b: Int64, remote: seq<byte>, offset: Int64)
    requires PathFits(remote)
    ensures Sendable(PlanRequest(b, remote, offset))
  {
  }

  /** The request frame for a data fetch of `remote`, which is exactly this long. */
  function RequestRoom(remote: seq<byte>): nat
  {
    HeadSize + RequestFixed + |remote|
  }

  /** A data request's frame takes exactly `RequestRoom` bytes. */
  lemma RequestFits(remote: seq<byte>, offset: Int64)
    requires PathFits(remote)
    ensures |FrameOf(MarshalRequest(PlanRequest(-1, remote, offset)))| == RequestRoom(remote)
  {
  }

  /** The request phase: send the planned request in one frame. */
  method SendRequest(s: Stream, b: Int64, remote: seq<byte>, offset: Int64) returns (err: Option<RpcError>)
    requires PathFits(remote)
    modifies s`outbound, s`room
    ensures err.None? <==> |FrameOf(MarshalRequest(PlanRequest(b, remote, offset)))| <= old(s.room)
    ensures err.None? ==> s.outbound == old(s.outbound) + FrameOf(MarshalRequest(PlanRequest(b, remote, offset)))
    ensures err.Some? ==> SentPrefix(old(s.outbound), s.outbound, FrameOf(MarshalRequest(PlanRequest(b, remote, offset))))
  {
    var req := PlanRequest(b, remote, offset);
    PlannedSendable(b, remote, offset);
    err := SendFileRequest(req, s);
  }

  /**
    The request phase of a data fetch: resolve the local name, open the
    local file at the resume offset, and send the request for the remote
    path from that offset.
  */
  method RequestFile(s: Stream, remote: seq<byte>, o: seq<byte>, local: LocalFs)
    returns (name: seq<byte>, f: LocalFile, offset: Int64, err: Option<RpcError>)
    requires PathFits(remote)
    modifies s`outbound, s`room
    ensures fresh(f)
    ensures name == LocalName(remote, o)
    ensures f.data == Lookup(local, name).GetOr([]) && f.pos == offset && offset == |f.data|
    ensures err.None? <==> RequestRoom(remote) <= old(s.room)
    ensures err.None? ==> s.outbound == old(s.outbound) + FrameOf(MarshalRequest(PlanRequest(-1, remote, offset)))
    ensures err.Some? ==> SentPrefix(old(s.outbound), s.outbound, FrameOf(MarshalRequest(PlanRequest(-1, remote, offset))))
  {
    name := LocalName(remote, o);
    f, offset := OpenLocal(Lookup(local, name));
    err := SendRequest(s, -1, remote, offset);
    RequestFits(remote, offset);
  }

  // ---- replies ----

  datatype ClientError =
    | RequestUnsent(cause: RpcError)     // `RpcSendFileRequest` failed
    | ReplyUnreadable(cause: RpcError)   // `RpcReadFileResponse` failed
    | ReceiveFailed(error: ChunkError)   // `RpcReadFileChunk` failed

  /** The receive phase of a rate change: read the acknowledgement. */
  method ReceiveRateReply(s: Stream) returns (r: Result<StatusCode, ClientError>)
    modifies s`inbound
    ensures ParseResponse(old(s.inbound)).Ok? ==> r == Ok(ParseResponse(old(s.inbound)).value.status)
    ensures ParseResponse(old(s.inbound)).Err? ==> r == Err(ReplyUnreadable(ParseResponse(old(s.inbound)).error))
    ensures s.inbound == ReadFrame(old(s.inbound)).rest
  {
    var res := ReadFileResponse(s);
    if res.Err? {
      return Err(ReplyUnreadable(res.error));
    }
    r := Ok(res.value.status);
  }

  /**
    What the receive phase of a data request does with the bytes that
    arrived, given the local file's contents and position before it: an
    unreadable response changes nothing; a response announcing a size of
    zero or less changes nothing either; otherwise the chunk header follows
    and `count` bytes after it are written at the position, all of them
    when the stream ended early, at least the announced size when it did
    not.
  */
  ghost predicate Received(input: seq<byte>, d0: seq<byte>, p0: nat,
                           r: Result<Int64, ClientError>, count: nat, d: seq<byte>, p: nat)
  {
    match ParseResponse(input)
    case Err(e) => r == Err(ReplyUnreadable(e)) && count == 0 && d == d0 && p == p0
    case Ok(res) =>
      if res.size <= 0 then r == Ok(res.size) && count == 0 && d == d0 && p == p0
      else
        var phase := ReadFrame(input).rest;
        if |phase| < HeadSize then r == Err(ReceiveFailed(HeaderShort)) && count == 0 && d == d0 && p == p0
        else
          var body := phase[HeadSize..];
          var size := Decode(phase[..HeadSize]).size;
          && count <= |body|
          && d == WriteAt(d0, p0, body[..count]) && p == p0 + count
          && (r.Ok? <==> ReceiveCompletes(|body|, size))
          && (r.Ok? ==> r.value == res.size && size <= count)
          && (r.Err? ==> r.error == ReceiveFailed(StreamEnded) && count == |body|)
  }

  /**
    The receive phase of a data request: read the response, and only when
    it announces a positive size run the chunk receiver into the local
    file; otherwise the file is left as it is. The result is the size the
    response announced.
  */
  method ReceiveFile(s: Stream, f: LocalFile) returns (r: Result<Int64, ClientError>, count: nat)
    modifies s`inbound, f
    ensures Received(old(s.inbound), old(f.data), old(f.pos), r, count, f.data, f.pos)
  {
    count := 0;
    var res := ReadFileResponse(s);
    if res.Err? {
      return Err(ReplyUnreadable(res.error)), count;
    }
    var size := res.value.size;
    if size > 0 {
      var err; ghost var last;
      err, count, last := ReadFileChunk(s, f);
      if err.Some? {
        return Err(ReceiveFailed(err.value)), count;
      }
    }
    r := Ok(size);
  }
}
