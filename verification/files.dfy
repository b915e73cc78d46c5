/**
  Files as byte sequences with a read/write position: the server's file
  opened for reading and the client's local file opened for writing.
  Directory creation, permissions and the operating system's own errors
  are not part of this model.
*/
module Files {
  import opened Bytes

  /** A file's contents: its size is an int64, as `Stat().Size()` reports. */
  type Contents = s: seq<byte> | |s| <= 0x7FFF_FFFF_FFFF_FFFF

  function Max(a: int, b: int): int { if a < b then b else a }

  /** The bytes of `file` from position `offset` to the end (none past the end). */
  function Tail(file: seq<byte>, offset: int): (r: seq<byte>)
    requires 0 <= offset
    ensures |r| == Max(|file| - offset, 0)
  {
    if offset <= |file| then file[offset..] else []
  }

  /** The bytes before the offset followed by the tail are the whole file. */
  lemma TailSplits(file: seq<byte>, offset: nat)
    requires offset <= |file|
    ensures file[..offset] + Tail(file, offset) == file
  {
  }

  /**
    The contents after writing `b` at position `p` of `d`: the bytes at
    p .. p+|b| are `b`, every other byte is unchanged, and a gap between the
    old end and p reads as zeros (the file grows as POSIX files do). Writing
    nothing changes nothing.
  */
  function WriteAt(d: seq<byte>, p: nat, b: seq<byte>): (r: seq<byte>)
    ensures |r| == if b == [] then |d| else Max(|d|, p + |b|)
  {
    if b == [] then d
    else
      var front := if p <= |d| then d[..p] else d + seq(p - |d|, _ => 0);
      var back := if p + |b| < |d| then d[p + |b|..] else [];
      front + b + back
  }

  /** Byte by byte: `b` at p .. p+|b|, the old bytes elsewhere, zeros in a gap. */
  lemma WriteAtBytes(d: seq<byte>, p: nat, b: seq<byte>)
    ensures var r := WriteAt(d, p, b);
      && (forall j | 0 <= j < |b| :: r[p + j] == b[j])
      && (forall i | 0 <= i < |r| && (i < p || p + |b| <= i) :: r[i] == (if i < |d| then d[i] else 0))
  {
  }

  /** Two writes at consecutive positions are one write of both. */
  lemma WriteAtAppend(d: seq<byte>, p: nat, a: seq<byte>, b: seq<byte>)
    ensures WriteAt(WriteAt(d, p, a), p + |a|, b) == WriteAt(d, p, a + b)
  {
    var x := WriteAt(d, p, a);
    var y := WriteAt(x, p + |a|, b);
    var z := WriteAt(d, p, a + b);
    WriteAtBytes(d, p, a);
    WriteAtBytes(x, p + |a|, b);
    WriteAtBytes(d, p, a + b);
    assert |y| == |z|;
    forall i | 0 <= i < |y|
      ensures y[i] == z[i]
    {
      if i < p {
      } else if i < p + |a| {
        assert x[p + (i - p)] == a[i - p];
        assert z[p + (i - p)] == (a + b)[i - p];
      } else if i < p + |a| + |b| {
        assert y[(p + |a|) + (i - p - |a|)] == b[i - p - |a|];
        assert z[p + (i - p)] == (a + b)[i - p];
      } else {
      }
    }
  }

  /** Writing the rest of a file after a copy of its beginning gives the file. */
  lemma WriteAtCompletes(local: seq<byte>, remote: seq<byte>)
    requires |local| <= |remote| && local == remote[..|local|]
    ensures WriteAt(local, |local|, remote[|local|..]) == remote
  {
    var r := WriteAt(local, |local|, remote[|local|..]);
    WriteAtBytes(local, |local|, remote[|local|..]);
    forall i | 0 <= i < |remote|
      ensures r[i] == remote[i]
    {
      if i >= |local| {
        assert r[|local| + (i - |local|)] == remote[|local|..][i - |local|];
      }
    }
  }

  /**
    `f.Read(bs)` on a file opened for reading at position `pos`: the next
    bytes of the file, at least one and at most `max` (a short read is
    allowed), or none at the end of the file.
  */
  method ReadAt(file: seq<byte>, pos: nat, max: nat) returns (chunk: seq<byte>)
    requires max > 0
    ensures |file| <= pos ==> chunk == []
    ensures pos < |file| ==> 0 < |chunk| <= max && pos + |chunk| <= |file| && chunk == file[pos..pos + |chunk|]
  {
    if |file| <= pos {
      chunk := [];
    } else {
      var n: nat :| 0 < n <= max && pos + n <= |file|;
      chunk := file[pos..pos + n];
    }
  }

  /** A local file opened for writing, with its position. */
  class LocalFile {
    var data: seq<byte>
    var pos: nat

    /** `os.OpenFile` of a file holding `data` (empty when created or truncated). */
    constructor (data: seq<byte>)
      ensures this.data == data && pos == 0
    {
      this.data := data;
      pos := 0;
    }

    /** `f.Seek(offset, 0)`. */
    method Seek(offset: nat)
      modifies this`pos
      ensures pos == offset
    {
      pos := offset;
    }

    /** `f.Write(bytes)`: the bytes land at the position, which advances past them. */
    method Write(bytes: seq<byte>)
      modifies this
      ensures data == WriteAt(old(data), old(pos), bytes)
      ensures pos == old(pos) + |bytes|
    {
      data := WriteAt(data, pos, bytes);
      pos := pos + |bytes|;
    }
  }
}
