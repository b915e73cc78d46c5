/**
  The chunked transfer loops of common/common.go.

  `RpcSendFileChunk` writes a header, then repeatedly takes a throttle
  token, reads up to `buffSize` bytes of the file and writes them, until a
  read returns nothing. `RpcReadFileChunk` reads that header, then reads
  from the stream and appends to the local file until the running count
  reaches the announced size.

  The server calls the sender with a start offset and the client hands the
  receiver its already positioned local file; those two forms are not the
  ones common/common.go defines, so here the sender starts reading at the
  offset (a negative offset is refused, as `Seek` refuses it) and the
  receiver writes into the file it is given.

  The header the sender writes is a parameter, `SizeRule`: the size of the
  whole file, as common/common.go builds it, or the number of bytes after
  the offset, which is what the receiver counts.
*/
module Chunk {
  import opened Bytes
  import opened Wrappers
  import opened Frame
  import opened Transport
  import opened Files
  import opened Throttle

  datatype ChunkError =
    | SeekFailed        // the start offset is negative
    | ChunkWriteFailed  // `stream.Write` returned an error
    | HeaderShort       // the stream ended inside the chunk-phase header
    | StreamEnded       // the stream ended before the announced size was reached

  /** The concatenation of the chunks written, in order. */
  function Concat(chunks: seq<seq<byte>>): (r: seq<byte>)
  {
    if chunks == [] then [] else Concat(chunks[..|chunks| - 1]) + chunks[|chunks| - 1]
  }

  /**
    The chunk-phase header exactly as common/common.go:104-107 builds it:
    the size of the whole file, whatever the offset the chunks start at.
  */
  function AnnouncedAsWritten(file: Contents, offset: Int64): (h: RpcHead)
    requires 0 <= offset
    ensures h.magic == 1
    ensures h.size == |file|
    ensures 0 < offset <= |file| ==> h.size > |Tail(file, offset)|
  {
    RpcHead(Magic, |file|)
  }

  /** The chunk-phase header the resumed transfer needs: the bytes that follow. */
  function Announced(file: Contents, offset: Int64): (h: RpcHead)
    requires 0 <= offset
    ensures h.magic == 1
    ensures h.size == |file| - offset
    ensures offset <= |file| ==> h.size == |Tail(file, offset)|
    ensures |file| < offset ==> h.size < 0
  {
    RpcHead(Magic, |file| - offset)
  }

  /**
    Whether a receiver that finds `available` bytes after the header, which
    announces `size`, finishes without an error: it always reads once, and
    then until it has `size` bytes.
  */
  predicate ReceiveCompletes(available: int, size: int)
  {
    available >= Max(size, 1)
  }

  /**
    As written, a resumed transfer never completes: after a non-empty local
    prefix the stream carries the rest of the file but the header announces
    the whole of it, so the receiver writes every byte that follows and
    then runs out of stream before its count reaches the announced size.
  */
  lemma AsWrittenResumeStalls(file: Contents, offset: Int64)
    requires 0 < offset < |file|
    ensures !ReceiveCompletes(|Tail(file, offset)|, AnnouncedAsWritten(file, offset).size)
  {
  }

  /** The same file of 10 bytes resumed from 6: 4 bytes follow a header announcing 10. */
  lemma AsWrittenResumeExample()
    ensures var file: Contents := [0, 1, 2, 3, 4, 5, 6, 7, 8, 9];
      |Tail(file, 6)| == 4 && AnnouncedAsWritten(file, 6).size == 10
      && !ReceiveCompletes(|Tail(file, 6)|, AnnouncedAsWritten(file, 6).size)
  {
  }

  /** With the corrected header, every transfer that has bytes to send completes. */
  lemma AnnouncedCompletes(file: Contents, offset: Int64)
    requires 0 <= offset < |file|
    ensures ReceiveCompletes(|Tail(file, offset)|, Announced(file, offset).size)
    ensures Announced(file, offset).size == |Tail(file, offset)|
  {
  }

  /** Which size the chunk-phase header announces. */
  datatype SizeRule =
    | WholeFile    // `stat.Size()`, as common/common.go:104-107 writes it
    | Remaining    // the bytes after the offset

  /** The chunk-phase header under a size rule. */
  function ChunkHead(rule: SizeRule, file: Contents, offset: Int64): (h: RpcHead)
    requires 0 <= offset
    ensures h.magic == 1
    ensures offset <= |file| ==> (h.size == |Tail(file, offset)| <==> rule.Remaining? || offset == 0)
  {
    if rule.WholeFile? then AnnouncedAsWritten(file, offset) else Announced(file, offset)
  }

  /**
    Under either rule, a receiver that gets all the bytes after the offset
    completes exactly when there are some and the header announces their
    number: always for `Remaining`, only from offset 0 for `WholeFile`.
  */
  lemma ChunkHeadCompletes(rule: SizeRule, file: Contents, offset: Int64)
    requires 0 <= offset <= |file|
    ensures ReceiveCompletes(|Tail(file, offset)|, ChunkHead(rule, file, offset).size)
      <==> offset < |file| && (rule.Remaining? || offset == 0)
  {
    if rule.WholeFile? && 0 < offset < |file| {
      AsWrittenResumeStalls(file, offset);
    }
  }

  /** Everything the chunk sender puts on the stream when nothing fails. */
  function ChunkPhase(rule: SizeRule, file: Contents, offset: Int64): (r: seq<byte>)
    requires 0 <= offset
    ensures |r| == HeadSize + |Tail(file, offset)|
    ensures r[..HeadSize] == Encode(ChunkHead(rule, file, offset)) && r[HeadSize..] == Tail(file, offset)
  {
    Encode(ChunkHead(rule, file, offset)) + Tail(file, offset)
  }

  /**
    The loop of `RpcSendFileChunk`: take a token, read up to `buffSize`
    bytes from position `start` on, stop at a zero-length read, write the
    bytes, repeat. What goes out is a prefix of the file's tail, all of it
    unless the connection breaks; `chunks` are the writes that succeeded,
    and every iteration (including the last, empty one) takes one token.
  */
  method SendChunks(th: TokenChannel, file: Contents, start: nat, s: Stream)
    returns (ok: bool, ghost chunks: seq<seq<byte>>)
    requires th.Valid()
    modifies th`held, th`produced, th`taken, s`outbound, s`room
    ensures th.Valid()
    ensures ok <==> |Tail(file, start)| <= old(s.room)
    ensures forall i | 0 <= i < |chunks| :: 0 < |chunks[i]| <= BuffSize
    ensures SentPrefix(old(s.outbound), s.outbound, Tail(file, start))
    ensures ok ==> s.outbound == old(s.outbound) + Tail(file, start)
    ensures |old(s.outbound)| + |Concat(chunks)| <= |s.outbound|
    ensures th.taken == old(th.taken) + |chunks| + 1
    ensures |Concat(chunks)| <= |Tail(file, start)| && Concat(chunks) == Tail(file, start)[..|Concat(chunks)|]
    ensures ok ==> Concat(chunks) == Tail(file, start)
    ensures !ok ==> |Concat(chunks)| < |Tail(file, start)|
  {
    chunks := [];
    ghost var sent: seq<byte> := [];
    ghost var room0, out0 := s.room, s.outbound;
    ghost var tail := Tail(file, start);
    var pos := start;
    while true
      invariant th.Valid()
      invariant sent == Concat(chunks) && |sent| <= |tail| && sent == tail[..|sent|]
      invariant pos == start + |sent|
      invariant s.outbound == out0 + sent && s.room + |sent| == room0
      invariant forall i | 0 <= i < |chunks| :: 0 < |chunks[i]| <= BuffSize
      invariant th.taken == old(th.taken) + |chunks|
      decreases |tail| - |sent|
    {
      th.Take();
      var bs := ReadAt(file, pos, BuffSize);
      if |bs| == 0 {
        break;
      }
      assert sent + bs == tail[..|sent| + |bs|];
      ok := s.Write(bs);
      if !ok {
        PrefixAfterFirst(out0, s.outbound, sent, bs);
        PrefixOfPrefix(out0, s.outbound, sent + bs, tail);
        return;
      }
      ghost var prev := chunks;
      chunks := prev + [bs];
      assert chunks[..|chunks| - 1] == prev;
      sent := sent + bs;
      pos := pos + |bs|;
    }
    assert sent == tail;
    assert tail[..|tail|] == tail;
    ok := true;
  }

  /**
    `RpcSendFileChunk(ch, f, offset, stream)`: seek to the offset, write the
    chunk-phase header, then send the chunks.
  */
  method SendFileChunk(rule: SizeRule, th: TokenChannel, file: Contents, offset: Int64, s: Stream)
    returns (err: Option<ChunkError>, ghost chunks: seq<seq<byte>>)
    requires th.Valid()
    modifies th`held, th`produced, th`taken, s`outbound, s`room
    ensures th.Valid()
    ensures offset < 0 ==> err == Some(SeekFailed) && s.outbound == old(s.outbound) && th.taken == old(th.taken)
    ensures 0 <= offset ==>
      && (err.None? <==> |ChunkPhase(rule, file, offset)| <= old(s.room))
      && (err.Some? ==> err == Some(ChunkWriteFailed))
      && SentPrefix(old(s.outbound), s.outbound, ChunkPhase(rule, file, offset))
      && (err.None? ==> s.outbound == old(s.outbound) + ChunkPhase(rule, file, offset))
    ensures 0 <= offset && HeadSize <= old(s.room) ==>
      && (forall i | 0 <= i < |chunks| :: 0 < |chunks[i]| <= BuffSize)
      && |old(s.outbound)| + HeadSize + |Concat(chunks)| <= |s.outbound|
      && s.outbound[..|old(s.outbound)| + HeadSize] == old(s.outbound) + Encode(ChunkHead(rule, file, offset))
      && th.taken == old(th.taken) + |chunks| + 1
    ensures 0 <= offset && HeadSize > old(s.room) ==> th.taken == old(th.taken)
    ensures err.None? ==> Concat(chunks) == Tail(file, offset)
  {
    chunks := [];
    if offset < 0 {
      return Some(SeekFailed), chunks;
    }
    var head := ChunkHead(rule, file, offset);
    var headBuff := Encode(head);
    var ok := s.Write(headBuff);
    if !ok {
      PrefixOfFirst(old(s.outbound), s.outbound, headBuff, Tail(file, offset));
      return Some(ChunkWriteFailed), chunks;
    }
    ghost var room, out1 := s.room, s.outbound;
    ok, chunks := SendChunks(th, file, offset, s);
    assert ok <==> HeadSize + |Tail(file, offset)| <= room + HeadSize;
    PrefixAfterFirst(old(s.outbound), s.outbound, headBuff, Tail(file, offset));
    assert s.outbound[..|out1|] == out1;
    err := if ok then None else Some(ChunkWriteFailed);
  }

  /**
    One step of the receive loop: the bytes read next are the next bytes of
    the stream, and writing them after the ones already written is writing
    the longer prefix.
  */
  lemma ReceiveStep(d0: seq<byte>, p0: nat, body: seq<byte>, count: nat, rest: seq<byte>, data: seq<byte>)
    requires count <= |body| && body[count..] == data + rest
    ensures count + |data| <= |body| && rest == body[count + |data|..]
    ensures WriteAt(WriteAt(d0, p0, body[..count]), p0 + count, data) == WriteAt(d0, p0, body[..count + |data|])
  {
    assert body[count..][..|data|] == data && body[count..][|data|..] == rest;
    assert body[..count] + data == body[..count + |data|];
    WriteAtAppend(d0, p0, body[..count], data);
  }

  /**
    The loop of `RpcReadFileChunk`: read from the stream, append what was
    read to the file, add it to the count, stop once the count reaches
    `size`. It always reads at least once, and stops with an error when the
    stream ends first. `last` is the size of the final read: it was the
    first read, or the count before it was still below `size`; so the loop
    stops at the first read that brings the count to `size` or beyond.
  */
  method ReceiveChunks(s: Stream, f: LocalFile, size: int)
    returns (ok: bool, count: nat, ghost last: nat)
    modifies s`inbound, f
    ensures count <= |old(s.inbound)|
    ensures s.inbound == old(s.inbound)[count..]
    ensures f.data == WriteAt(old(f.data), old(f.pos), old(s.inbound)[..count])
    ensures f.pos == old(f.pos) + count
    ensures ok <==> ReceiveCompletes(|old(s.inbound)|, size)
    ensures ok ==> 0 < last <= BuffSize && last <= count && size <= count && (count == last || count - last < size)
    ensures !ok ==> count == |old(s.inbound)|
  {
    count, last := 0, 0;
    ghost var body := s.inbound;
    ghost var d0, p0 := f.data, f.pos;
    while true
      invariant count <= |body|
      invariant s.inbound == body[count..]
      invariant f.data == WriteAt(d0, p0, body[..count]) && f.pos == p0 + count
      invariant count == 0 || count < size
      decreases |s.inbound|
    {
      var data, eof := s.Read(BuffSize);
      if eof {
        return false, count, last;
      }
      ReceiveStep(d0, p0, body, count, s.inbound, data);
      f.Write(data);
      count, last := count + |data|, |data|;
      if count >= size {
        break;
      }
    }
    ok := true;
  }

  /**
    `RpcReadFileChunk`: read the chunk-phase header, then receive until the
    running count reaches the size it announces.
  */
  method ReadFileChunk(s: Stream, f: LocalFile)
    returns (err: Option<ChunkError>, count: nat, ghost last: nat)
    modifies s`inbound, f
    ensures |old(s.inbound)| < HeadSize ==>
      err == Some(HeaderShort) && count == 0 && s.inbound == [] && f.data == old(f.data) && f.pos == old(f.pos)
    ensures HeadSize <= |old(s.inbound)| ==>
      var size := Decode(old(s.inbound)[..HeadSize]).size;
      var body := old(s.inbound)[HeadSize..];
      && count <= |body|
      && s.inbound == body[count..]
      && f.data == WriteAt(old(f.data), old(f.pos), body[..count])
      && f.pos == old(f.pos) + count
      && (err.None? <==> ReceiveCompletes(|body|, size))
      && (err.None? ==> 0 < last <= BuffSize && last <= count && size <= count && (count == last || count - last < size))
      && (err.Some? ==> err == Some(StreamEnded) && count == |body|)
  {
    count, last := 0, 0;
    var headBuff := s.ReadFull(HeadSize);
    if headBuff.None? {
      return Some(HeaderShort), count, last;
    }
    var head := Decode(headBuff.value);
    var ok;
    ok, count, last := ReceiveChunks(s, f, head.size);
    err := if ok then None else Some(StreamEnded);
  }
}
