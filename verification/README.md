# merry: QUIC file transfer with resume and a bandwidth throttle

This project models the core of merry, a small file-transfer tool that runs over one QUIC stream. It is written in Dafny and the properties are proved.

A client sends one framed request. The request either asks the server to change its outbound rate or asks for a remote file from a resume offset. The server answers with one framed response. For a data request it then streams the file in chunks of at most 1024 bytes, and each chunk write waits for a token from a capacity-one throttle channel.

The model is split by module:

- **Bytes**: bytes and int32/int64 words, with explicit wrap-around.
- **Frame**: the 16-byte `RpcHead` header and one-frame reads.
- **Envelope**: the request/response envelope.
- **Transport**: a stream, as a class holding the bytes still to read, the bytes written, and the room left before the connection breaks.
- **Files**: files and the client's positioned local file.
- **Throttle**: the token channel.
- **Chunk**: the chunk sender and receiver loops.
- **Server**: the per-stream handler.
- **Client**: local name, resume offset, requests and the `Size > 0` gate.
- **Session**: a client and a server run one after the other on one stream.

How the source's inputs become Dafny:

- Stream reads and file reads are nondeterministic. They return any non-empty prefix up to the buffer size, so every property holds for every read schedule.
- A write fails exactly when it does not fit the room left. A failed write may already have sent any first part of its bytes, and after it the connection is broken.
- The server's files are a map from path to contents, or to "opens but cannot be statted".
- The client's files are a map from name to contents.
- Flags are parameters.

The size the chunk-phase header announces is a parameter, `Chunk.SizeRule`. `WholeFile` is the file's size, as common/common.go:104-107 writes it. `Remaining` is the number of bytes after the offset, which is what the receiver counts (see Findings). The sender, the handler and the session are modelled under both rules.

The central result is `Session.Fetch`. Suppose the client's local file holds a copy of the beginning of the remote file, and the connection carries everything. Then the local file ends as a byte-for-byte copy of the remote file, under either rule. The result is `Session.FetchResult`:
- with `Remaining`, the number of bytes that were missing;
- with `WholeFile`, the same when the local file was empty or already complete;
- with `WholeFile` after a partial local copy, the error that the stream ended before the announced size.

`Session.SetRate` is the companion result for a rate change.

The model keeps these behaviours of the code, which a reader might not expect:

- `Decode` never checks the magic.
- These end the handler silently, and no error response is sent:
  - a request whose frame is short;
  - a request that does not unmarshal;
  - a file that cannot be opened;
  - a file that cannot be statted.
- A request header whose size is negative, or too large to allocate, makes `make` panic. That ends the whole server process (see Left out).
- Nothing checks that the offset lies within the file. A larger offset gives a negative `Size`. In the model, a negative offset fails the chunk phase after the response has gone out, as `Seek` would.
- The server starts the chunk phase unconditionally.
- The response is written in two writes.
- The client does not read exactly `Size` bytes. It reads the chunk-phase header and counts against the size that header announces.

## Model

| member | source | states |
|---|---|---|
| Bytes.FromToLittleEndian | common/common.go:35-42 | decoding the k little-endian bytes of n gives n back |
| Bytes.ToFromLittleEndian | common/common.go:44-48 | every byte string is the k-byte encoding of the number it decodes to |
| Bytes.SignedRoundTrip | common/common.go:35-48 | a two's-complement word decodes to the integer that was encoded |
| Bytes.SignedInverse | common/common.go:35-48 | every byte string is the two's-complement encoding of its decoded value |
| Bytes.TopByte | common/common.go:44-48 | the last byte of a little-endian string is its most significant digit |
| Bytes.SignBit | common/common.go:44-48 | a two's-complement word is negative exactly when the top bit of its last byte is set |
| Bytes.Wrap64 | server/server.go:100 | int64 subtraction: the result agrees with the exact value modulo 2^64 and equals it when it is in range |
| Bytes.Wrap32 | client/client.go:59 | `int32(x)`: the result agrees with x modulo 2^32 and equals x when x fits |
| Frame.Encode | common/common.go:35-42 | a header encodes to exactly headSize (16) bytes |
| Frame.DecodeEncode | common/common.go:35-48 | decoding an encoded header recovers magic and size |
| Frame.Decode | common/common.go:44-48 | any 16 bytes decode to a header; the magic is not checked (a definition; its properties are the lemmas around it) |
| Frame.NegativeSizeBit | common/common.go:44-57 | a header announces a negative size, for which the reader's `make` panics, exactly when the top bit of its last byte is set |
| Frame.EncodeDecode | common/common.go:44-48 | every 16-byte string is the encoding of the header it decodes to, so decoding loses nothing |
| Frame.HeadFor | common/common.go:145-148 | a sender's header has magic 1 and size len(body) |
| Frame.FrameOf | common/common.go:145-154 | the bytes sent for a body are a header decoding to (1, len(body)) followed by the body, headSize + len(body) bytes in all |
| Frame.ReadFrame | common/common.go:50-62 | reading a frame consumes the header and exactly `size` body bytes; a short header or short body consumes everything and fails |
| Frame.ReadFrameSplits | common/common.go:161-173 | a successful read means the input was a header announcing the body's length (any magic), the body, and the rest |
| Frame.ReadFrameOf | common/common.go:50-62 | a header with any magic and the body's length, then the body, then anything, reads back as that body and leaves exactly the rest |
| Frame.ReadFrameOfFrame | common/common.go:139-159 | what a sender wrote reads back as the same body, consuming headSize + len(body) bytes |
| Envelope.MarshalRequest | common/common.go:140-143 | the stand-in serialisation of a request is 12 bytes plus the path |
| Envelope.RequestRoundTrip | common/common.go:64 | a marshalled request unmarshals to the same request |
| Envelope.RequestUnique | common/common.go:64 | for the stand-in only: whatever unmarshals to a request is exactly that request's marshalling (protobuf is not canonical; see Left out) |
| Envelope.MarshalResponse | common/common.go:73-76 | the stand-in serialisation of a response is 9 bytes |
| Envelope.ResponseRoundTrip | common/common.go:175 | a marshalled response unmarshals to the same response |
| Envelope.ResponseUnique | common/common.go:175 | for the stand-in only: whatever unmarshals to a response is exactly that response's marshalling (see Left out) |
| Envelope.RequestOnWire | common/common.go:139-159 | the request a client frames is the request the server parses, and nothing after the frame is consumed |
| Envelope.ResponseOnWire | common/common.go:72-95 | the response a server frames is the response the client parses, and nothing after the frame is consumed |
| Envelope.ParsedRequestWasFramed | common/common.go:50-70 | for the stand-in only: a request that parses was preceded by a header announcing exactly its marshalled length (see Left out) |
| Envelope.ParseRequest | common/common.go:50-70 | a broken frame gives its frame error; a parsed request is the one whose stand-in marshalling is the frame's body, which holds because the stand-in has one layout per request; protobuf accepts many |
| Envelope.ParseResponse | common/common.go:161-181 | a broken frame gives its frame error; a parsed response is the one whose stand-in marshalling is the frame's body, which holds because the stand-in has one layout per response; protobuf accepts many |
| Envelope.ReadOneFrame | common/common.go:50-62 | the header-then-body reads return `ReadFrame` of the stream and leave its rest |
| Envelope.ReadFileRequest | common/common.go:50-70 | `RpcReadFileRequest` returns the parsed request, or the frame or unmarshal error, and consumes one frame |
| Envelope.ReadFileResponse | common/common.go:161-181 | `RpcReadFileResponse` returns the parsed response, or the frame or unmarshal error, and consumes one frame |
| Envelope.SendFileRequest | common/common.go:139-159 | header and body go out in one write; it succeeds exactly when the frame fits, and otherwise a proper prefix of the frame is written |
| Envelope.SendFileResponse | common/common.go:72-95 | header, then body, in two writes; it succeeds exactly when both fit; a failure leaves a proper prefix of the frame, with the whole header once the header fitted |
| Transport.Stream.Write | common/common.go:154 | a write either appends all its bytes, or fails after appending a first part of them (possibly none) and breaks the connection; it fails exactly when the bytes do not fit |
| Transport.Stream.Deliver | common/common.go:154 | what one end writes arrives, in order, after what the other end has not yet read |
| Transport.Stream.ReadFull | common/common.go:52 | `io.ReadAtLeast` with n == len(buf) gives exactly n bytes, or fails after consuming what was left |
| Transport.Stream.Read | common/common.go:199-202 | a read returns between 1 and len(buf) bytes in order, or an error once the stream has ended |
| Files.Tail | server/server.go:97-100 | the bytes after the offset: as many as the file has past it, none past the end |
| Files.TailSplits | server/server.go:97-100 | the bytes before the offset followed by the tail are the whole file |
| Files.WriteAt | common/common.go:208 | writing at a position gives a file of length max(old, pos + n) |
| Files.WriteAtBytes | common/common.go:208 | after a write, the written bytes sit at pos..pos+n, other bytes are unchanged, and a gap reads as zeros |
| Files.WriteAtAppend | common/common.go:198-213 | two writes at consecutive positions equal one write of both, so the receive loop's writes compose |
| Files.WriteAtCompletes | client/client.go:102-108 | writing the rest of a file after a copy of its beginning gives the whole file |
| Files.ReadAt | common/common.go:119 | `f.Read(bs)`: the next 1..len(bs) bytes of the file from the position, or nothing at the end |
| Files.LocalFile.Seek | client/client.go:108 | `f.Seek(offset, 0)` sets the position |
| Files.LocalFile.Write | common/common.go:208 | the bytes land at the position, which moves past them |
| Throttle.TokenChannel.constructor | server/server.go:38 | the channel starts empty, with nothing produced or taken |
| Throttle.TokenChannel.Tick | server/server.go:41-46 | the producer adds a token only when the buffer is empty; the buffer never holds more than one token |
| Throttle.TokenChannel.Take | server/server.go:82 | `<-ch` removes one token, waiting for a tick if none is held; tokens taken plus tokens held equals tokens produced |
| Throttle.TokenChannel.SetInterval | server/server.go:71 | the rate change assigns the producer's interval |
| Chunk.AnnouncedAsWritten | common/common.go:104-107 | the chunk header as written announces the whole file size, more than the tail whenever the offset is positive |
| Chunk.Announced | common/common.go:104-107 | the corrected chunk header announces fileSize - offset: exactly the bytes after the offset, and a negative size past the end |
| Chunk.AsWrittenResumeStalls | common/common.go:104-107 | as written, the receiver of a resumed transfer (0 < offset < size) runs out of stream before its count reaches the announced size |
| Chunk.AsWrittenResumeExample | common/common.go:104-107 | a 10-byte file resumed from 6: 4 bytes follow a header announcing 10, and the receive phase fails |
| Chunk.AnnouncedCompletes | common/common.go:197-213 | with the corrected header, every resumed transfer with bytes left completes |
| Chunk.ChunkHead | common/common.go:104-107 | under either size rule the header has magic 1, and it announces exactly the bytes after the offset iff the rule is `Remaining` or the offset is 0 |
| Chunk.ChunkHeadCompletes | common/common.go:197-213 | a receiver given the whole tail completes iff there are bytes left and the rule is `Remaining` or the offset is 0 |
| Chunk.ChunkPhase | common/common.go:103-134 | the chunk phase is the header of the chosen size rule followed by the file's tail from the offset |
| Chunk.SendChunks | common/common.go:114-134 | what goes out is a prefix of the file's tail, all of it exactly when the tail fits; the chunks that were written have 1..1024 bytes each and concatenate to a prefix of the tail; one token per iteration, chunks + 1 in all |
| Chunk.SendFileChunk | common/common.go:97-137 | a negative offset fails before anything is written; otherwise what goes out is a prefix of `ChunkPhase` (the rule's header, then the tail), all of it exactly when it fits; a header that fitted goes out whole |
| Chunk.ReceiveStep | common/common.go:199-208 | each read takes the next bytes of the stream, and writing them after the bytes already written equals writing the longer prefix |
| Chunk.ReceiveChunks | common/common.go:197-213 | every byte read is written in order at the file's position; it reads at least once; it succeeds exactly when the stream holds max(size, 1) bytes; it stops at the first read that brings the count to size |
| Chunk.ReadFileChunk | common/common.go:183-216 | a short header fails with the file untouched; otherwise it receives against the announced size, with the same guarantees |
| Server.Interval | server/server.go:71 | `1000000 / bandwidth` in int32 division: the largest r with r * bandwidth <= 1000000 |
| Server.IntervalOf100 | server/server.go:71 | bandwidth 100 gives interval 10000 |
| Server.RateReply | server/server.go:72-74 | the rate acknowledgement has status kOK and size 0 |
| Server.DataResponse | server/server.go:97-101 | status kOK and size = fileSize - offset in int64: the length of the tail for an offset in range, negative past the end |
| Server.IsRateChange | server/server.go:70 | a request is a rate change exactly when its bandwidth is positive; -1, 0 and every negative value ask for data (a definition; Session.DispatchAgrees states what it means for the client's `-b`) |
| Server.RatePlan | server/server.go:70-82 | a rate change ends as `RateChanged` with `Interval(bandwidth)` and writes one response frame of 25 bytes |
| Server.DataPlan | server/server.go:97-112 | a data answer ends as `FileSent` exactly when the offset is non-negative, and as `SeekFailed` otherwise; it writes the response frame, then for a non-negative offset the chunk header and the tail |
| Server.ServePlan | server/server.go:62-116 | nothing is written unless the request parses and either is a rate change or names a file that opens and stats; an unreadable request ends with its read error |
| Server.DataPlanParsed | server/server.go:97-108 | a data answer is never empty: the client parses the data response from it, and the chunk phase follows unless the offset is negative |
| Server.ResponseComesFirst | server/server.go:83-108 | a data request gets output only when the file opens and stats; that output starts with the response, and the chunk phase follows it |
| Server.ServeRate | server/server.go:70-82 | the interval is set, then the acknowledgement is written, then exactly one token is taken; on a failed reply no token is taken |
| Server.ServeChunks | server/server.go:108-112 | the handler's chunk phase: SeekFailed with nothing written for a negative offset, otherwise a prefix of `ChunkPhase`, complete exactly when it fits |
| Server.ServeData | server/server.go:97-112 | the response, then the chunk phase; what goes out is always a prefix of that plan, and all of it when the connection holds |
| Server.RequestPlan | server/server.go:70-112 | the handler writes something for a parsed request exactly when it is a rate change or names a file that opens and stats; a rate change ends as `RateChanged` |
| Server.ServeRequest | server/server.go:70-112 | on a parsed request: the bytes written are a prefix of `RequestPlan`, all of them with the planned outcome when they fit; a positive bandwidth sets the interval and ends as `RateChanged` or `ReplyFailed`; the token count never goes down |
| Server.ServeStream | server/server.go:62-116 | one request is consumed; a positive bandwidth changes the rate and nothing else does; the bytes written are a prefix of `ServePlan`, all of them with the planned outcome when they fit; a rate request ends as `RateChanged` or `ReplyFailed`; the token count never goes down |
| Client.StripSlashes | client/client.go:78 | the path without its trailing slashes: a prefix, not ending in '/', with only slashes removed |
| Client.AfterLastSlash | client/client.go:78 | the suffix after the last '/', containing no slash |
| Client.Base | client/client.go:78 | `path.Base`: non-empty, "/" or slash-free, and "." for the empty path |
| Client.AfterLastSlashJoin | client/client.go:78 | after a directory prefix, a slash-free name is what follows the last slash |
| Client.BaseOfName | client/client.go:78 | the base of dir + name is name |
| Client.BaseIdempotent | client/client.go:78 | taking the base twice changes nothing |
| Client.BaseInDirectory | client/client.go:80-81 | a base placed in a directory keeps that base, unless it is "/" |
| Client.BaseExample | client/client.go:78 | the base of "/d/x" is "x" |
| Client.LocalName | client/client.go:77-85 | no `-o`: the remote path's base; `-o` ending in '/': a name inside that directory with the remote path's base; any other `-o`: `-o` itself |
| Client.LocalNameKeepsBase | client/client.go:77-85 | without `-o`, or with `-o` ending in '/', the local file keeps the remote path's base name |
| Client.LocalNameExample | client/client.go:77-85 | "/d/x" is saved as "o/x" with `-o o/`, as "x" with no `-o`, and as "o" with `-o o` |
| Client.Lookup | client/client.go:93 | `os.Stat` finds a file exactly when the name is present |
| Client.ResumeOffset | client/client.go:93-107 | offset 0 for a missing file, and the existing file's size otherwise |
| Client.OpenLocal | client/client.go:93-108 | a missing file is created empty; an existing one keeps its contents; the position is the resume offset before anything is received |
| Client.PlanRequest | client/client.go:55-60 | `-b` > 0 gives a rate request with no path, offset 0 and `int32(b)`; otherwise the remote path, the resume offset and bandwidth -1 |
| Client.RateTruncates | client/client.go:59 | `-b 4294967296` is positive but sends bandwidth 0 |
| Client.PlannedSendable | client/client.go:111-115 | every request the client plans for a path that fits can be marshalled and framed |
| Client.SendRequest | client/client.go:111-120 | the planned request goes out in one frame exactly when it fits; otherwise a prefix of that frame is written |
| Client.RequestFile | client/client.go:76-120 | the data request phase: the local name, the local file holding what exists under that name with the position at its end, and the request for the remote path from that offset, sent exactly when its `RequestRoom` bytes fit |
| Client.ReceiveRateReply | client/client.go:67-72 | the acknowledgement's status, or the read error |
| Client.ReceiveFile | client/client.go:122-135 | the response is read; the chunk phase runs only when Size > 0; otherwise, and on a read error, the local file is unchanged |
| Client.Received | client/client.go:122-135 | the receive phase as a relation: an unreadable response or a size of zero or less leaves the file unchanged; otherwise the bytes after the chunk header are written at the position, all of them when the stream ended early and at least the announced size when it did not (a definition; Client.ReceiveFile is proved against it) |
| Session.DispatchAgrees | server/server.go:70 | the server takes the rate branch exactly when `-b` > 0 and its low 32 bits, read as an int32, are positive; every `-b` in 1..2^31-1 is a rate change |
| Session.DataRequestServed | server/server.go:83-101 | a data request for a readable file is answered by that file's response and chunk phase, whose length is `ReplyRoom` |
| Session.DataPlanOnWire | server/server.go:97-108 | the client parses the response with size fileSize - offset, then finds a header announcing the whole file size (as written) or fileSize - offset (corrected), then the file's tail |
| Client.RequestFits | client/client.go:111-120 | a data request's frame is `RequestRoom` bytes: the header, the fixed fields and the path |
| Session.ResumedReceive | client/client.go:129-135 | a local file holding the first `offset` remote bytes that receives the server's whole answer ends as the whole remote file under either rule; it reports fileSize - offset, except that with the header as written and 0 < offset < fileSize it fails with `StreamEnded` |
| Session.ServeConnection | server/server.go:62-116 | the server's end of one connection: what it sends back is a prefix of its plan, all of it when it fits |
| Session.CompleteFetch | client/client.go:116-135 | after the request: server, delivery and receive turn a local copy of the remote file's beginning into the whole remote file, with the result `FetchResult` gives for the rule |
| Session.FinishFetch | client/client.go:116-135 | a fetch whose request was not sent fails with that error; otherwise it completes as `CompleteFetch` does |
| Session.Fetch | client/client.go:76-135 | end to end: if the local file is a copy of the beginning of the remote file and the connection carries everything, the local file ends equal to the remote file under either rule; the result is the missing byte count, or `StreamEnded` for a resume from a partial copy with the header as written |
| Session.RateRequestServed | server/server.go:70-71 | a rate request for `-b` in int32 range is served as a rate change with that bandwidth |
| Session.RateReplyOnWire | server/server.go:72-75 | the acknowledgement reads back as kOK |
| Session.ServeRateRequest | server/server.go:70-82 | the server's end of a rate change for `b` in int32 range: the interval becomes 1000000 / b and, when the acknowledgement fits, it is the planned reply and one token is taken |
| Session.CompleteRate | server/server.go:70-82 | after the request: the interval becomes 1000000 / b, one token is taken, and the client reads kOK |
| Session.SetRate | client/client.go:55-74 | end to end: a rate change with `-b` in int32 range sets the interval to 1000000 / b, takes one token, and reports kOK |

## Left out

- TLS configuration and certificate generation (`GenerateTLSConfig`): these are crypto-library calls.
- QUIC listen, dial, accept and stream opening: a stream is two byte sequences and a room budget.
- Several streams served at once: the server handles one stream at a time.
- Protobuf: `proto.Marshal`/`Unmarshal` are replaced by a fixed-layout stand-in with proved round trips. Protobuf's wire format and `Marshal` errors are not part of this model.
- Envelope.RequestUnique: the fact holds only because the stand-in serialiser is canonical. `proto.Unmarshal` (common/common.go:64) also accepts unknown fields, any field order, defaults written out and non-minimal varints, so a parsed request need not be its own marshalling.
- Envelope.ResponseUnique: the fact holds only because the stand-in is canonical. `proto.Unmarshal` (common/common.go:175) accepts many encodings of one response.
- Envelope.ParsedRequestWasFramed: the announced length equals the parsed request's marshalled length only because the stand-in is canonical. With protobuf, the header announces the length of whichever encoding was sent.
- Envelope.ParseRequest, Envelope.ParseResponse: the clause that a parsed value's marshalling is the frame body holds only for the canonical stand-in, for the same reason.
- The `unsafe` header layout: it is replaced by two 8-byte little-endian two's-complement words (16 bytes, as on a 64-bit platform).
- A header announcing a negative size, or a size larger than Go can allocate, makes `make([]byte, head.size)` panic (common/common.go:57 and :168).
  - Nothing recovers the panic, so it ends the whole process: the server, when the handler goroutine reads a request, and the client, when it reads a response.
  - Here a negative size is the error `NegativeSize`.
  - A size too large to allocate is read like any other size. It fails with `ShortBody` when the stream ends first.
- Timing: `time.Sleep`, the float `ff.t`, the producer goroutine and the unsynchronised write to `ff.t` are not modelled. The interval is the int32 quotient, and a tick is one producer step.
- Throttle.TokenChannel.Take: it does not model how long a consumer waits; a missing token is supplied by one tick.
- Goroutines: the client and server run one after the other (request, handler, receive), not concurrently.
- Files.ReadAt: a read never fails here; a readable entry gives its bytes until the end. In the program `f.Read` reports a failure as `(0, err)`, for example on a path that is a directory, which opens and stats. The sender's loop tests `n == 0` before `err` (common/common.go:119-126), so such a failure ends the loop like end-of-file: the response and the chunk header have gone out, no body bytes follow, and `RpcSendFileChunk` returns nil. The model has no entry that stats but will not read, so `Server.DataPlan` and `Chunk.SendChunks` always send the whole tail.
- The receiver ignores the error of its local `w.Write` (common/common.go:208), and the client ignores the error of `f.Seek` (client/client.go:108). Here both always succeed.
- `bufio.Writer` buffering and `Flush`: received bytes land in the file as they are written.
- `f.Close`, `defer` ordering, printing, flag parsing and wall-clock timing.
- `os.MkdirAll` and `path.Dir`: not modelled.
- `os.OpenFile` failures: not modelled.
- `os.Stat` errors other than "does not exist": in the source they leave a nil `FileInfo` and panic.
- `stream.Read` returning data together with an error: here a read returns data, or the end of the stream, never both.
- QUIC's idle timeout (client/client.go:40-42): the handler never closes its stream, so in the program a receiver still waiting for bytes blocks until the 10-second idle timeout ends the connection. Here the end of the bytes delivered is the end of the stream, and that read fails at once.
- The chunk sender's own `f.Stat` (common/common.go:98-101): the handler has already statted the file, so that call cannot fail here.
- The four-argument `RpcSendFileChunk(ch, f, offset, stream)` that server/server.go:108 calls is not defined in common/common.go, which defines only a three-argument sender, which neither seeks nor starts at an offset. The sender is modelled with a start offset, and a negative offset fails as `Seek` does.
- The `RpcReadFileChunk` defined in common/common.go reopens a file by name with `O_TRUNC` (common/common.go:192). The client calls a form that takes its already positioned file, so the receiver writes into that file.
- The server's accept loop, and errors from `AcceptStream`: not modelled.

## Findings

| source | as written | input that shows it | evidently intended | confidence | as-written member | corrected member |
|---|---|---|---|---|---|---|
| common/common.go:104-107 | the chunk-phase header announces `stat.Size()`, the whole file, even when the chunks start at the resume offset | a 10-byte remote file and a local copy of its first 6 bytes: offset 6, and 4 bytes follow a header announcing 10. The receiver writes them, so the local file is whole, then waits for 6 more that never come. The fetch reports an error; in the program the read blocks until the 10-second idle timeout (client/client.go:40-42), since the handler never closes the stream | the header announces `stat.Size() - offset`, the bytes actually sent after it | medium: the four-argument sender that server/server.go:108 calls is not in common/common.go; not executed | Chunk.AsWrittenResumeStalls | Chunk.AnnouncedCompletes |
