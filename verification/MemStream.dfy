/**
 open_memstream: a growing buffer that looks like a file. The byte at the published end is
 always zero, so a byte of the file under it is kept aside in `saved` and put back when
 the position moves.
 */
module MemStream {
  import opened Octets

  const INITIAL_SIZE: nat := 1024

  /** Seek positions that do not survive the cast to size_t start here. */
  const SIZE_LIMIT: int := 0x1_0000_0000

  // ----- the simple file -----

  datatype File = File(bytes: seq<Byte>, pos: nat)

  datatype Whence = FromStart | FromCurrent | FromEnd

  function Zeros(n: nat): (r: seq<Byte>)
    ensures |r| == n && forall i :: 0 <= i < n ==> r[i] == 0
  {
    seq(n, _ => 0)
  }

  /** The bytes after data is laid down at the position: a gap before it is filled with zeros. */
  function Laid(f: File, data: seq<Byte>): (r: seq<Byte>)
    ensures |r| == if |f.bytes| < f.pos + |data| then f.pos + |data| else |f.bytes|
  {
    var base := if |f.bytes| < f.pos then f.bytes + Zeros(f.pos - |f.bytes|) else f.bytes;
    var end := f.pos + |data|;
    base[..f.pos] + data + (if end < |base| then base[end..] else [])
  }

  /** Byte by byte: the data where it was laid, the old bytes elsewhere, zeros in the gap. */
  lemma LaidBytes(f: File, data: seq<Byte>, i: nat)
    requires i < |Laid(f, data)|
    ensures Laid(f, data)[i]
            == if f.pos <= i < f.pos + |data| then data[i - f.pos] else if i < |f.bytes| then f.bytes[i] else 0
  {
    var base := if |f.bytes| < f.pos then f.bytes + Zeros(f.pos - |f.bytes|) else f.bytes;
    assert i < f.pos ==> base[..f.pos][i] == base[i];
  }

  /** A write to a file replaces or extends; writing nothing changes nothing, also past the end. */
  function WriteFile(f: File, data: seq<Byte>): File {
    File(if data == [] then f.bytes else Laid(f, data), f.pos + |data|)
  }

  /** Byte by byte: the data where it was written, the old bytes elsewhere, zeros in the gap. */
  lemma WriteFileBytes(f: File, data: seq<Byte>, i: nat)
    requires i < |WriteFile(f, data).bytes|
    ensures WriteFile(f, data).bytes[i]
            == if f.pos <= i < f.pos + |data| then data[i - f.pos] else if i < |f.bytes| then f.bytes[i] else 0
  {
    if data != [] {
      LaidBytes(f, data, i);
    }
  }

  /** Two writes in a row are one. */
  lemma WriteFileTwice(f: File, a: seq<Byte>, b: seq<Byte>)
    ensures WriteFile(WriteFile(f, a), b) == WriteFile(f, a + b)
  {
    var l, r := WriteFile(WriteFile(f, a), b), WriteFile(f, a + b);
    assert |l.bytes| == |r.bytes| && l.pos == r.pos;
    hide WriteFile;
    forall i | 0 <= i < |r.bytes|
      ensures l.bytes[i] == r.bytes[i]
    {
      WriteFileBytes(f, a + b, i);
      WriteFileBytes(WriteFile(f, a), b, i);
      if i < |WriteFile(f, a).bytes| {
        WriteFileBytes(f, a, i);
      }
    }
    assert l.bytes == r.bytes;
  }

  function Target(f: File, delta: int, whence: Whence): int {
    match whence
    case FromStart => delta
    case FromCurrent => f.pos + delta
    case FromEnd => |f.bytes| + delta
  }

  predicate GoodTarget(n: int) { 0 <= n < SIZE_LIMIT }

  function SeekFile(f: File, delta: int, whence: Whence): File {
    var n := Target(f, delta, whence);
    if GoodTarget(n) then f.(pos := n) else f
  }

  /**
   What write_memstream does to the file. An empty write inside the file saves the zero that
   stands there for the byte, and so loses the byte; one past the end moves the end up to it.
   */
  function Written(f: File, data: seq<Byte>): File {
    File(if data == [] && f.pos < |f.bytes| then f.bytes[f.pos := 0] else Laid(f, data), f.pos + |data|)
  }

  /** The stream is a file exactly on writes that are not empty, or at the end, or over a zero byte. */
  lemma WrittenIsFileExactly(f: File, data: seq<Byte>)
    ensures Written(f, data) == WriteFile(f, data)
            <==> data != [] || f.pos == |f.bytes| || (f.pos < |f.bytes| && f.bytes[f.pos] == 0)
  {
    if data == [] {
      if f.pos < |f.bytes| {
        assert f.bytes[f.pos := 0][f.pos] == 0;
        assert f.bytes[f.pos] == 0 ==> f.bytes[f.pos := 0] == f.bytes;
      } else if f.pos == |f.bytes| {
        assert Laid(f, data) == f.bytes;
      }
    }
  }

  /** Both failing inputs: an empty write over a byte loses it, one past the end adds zeros. */
  lemma EmptyWritesShow()
    ensures Written(File([7, 8], 1), []).bytes == [7, 0]
    ensures Written(File([7], 3), []).bytes == [7, 0, 0]
  {
    var f := File([7], 3);
    assert Laid(f, []) == [7, 0, 0] by {
      LaidBytes(f, [], 0);
      LaidBytes(f, [], 1);
      LaidBytes(f, [], 2);
    }
  }

  // ----- runs -----

  datatype Op = Write(data: seq<Byte>) | Seek(delta: int, whence: Whence)

  function Apply(f: File, op: Op): File {
    match op
    case Write(data) => WriteFile(f, data)
    case Seek(delta, whence) => SeekFile(f, delta, whence)
  }

  function Replay(ops: seq<Op>): File {
    if ops == [] then File([], 0) else Apply(Replay(ops[..|ops| - 1]), ops[|ops| - 1])
  }

  // ----- the stream -----

  class Stream {
    var buf: array<Byte>   // *bufp; its length is allocSize
    var size: nat          // *sizep
    var eof: nat
    var offset: nat
    var saved: Byte

    /** The terminator stands at the position when that is inside the file, and at the end in any case. */
    ghost predicate Valid() reads this, buf {
      && (eof < buf.Length || eof == buf.Length == 0)
      && (buf.Length > 0 ==> buf[eof] == 0)
      && (offset < eof ==> buf[offset] == 0)
      && size == (if offset < eof then offset else eof)
    }

    /** The buffer with the saved byte put back. */
    ghost function Contents(): File
      reads this, buf
      requires Valid()
    {
      File(if offset < eof then buf[..eof][offset := saved] else buf[..eof], offset)
    }

    constructor ()
      ensures Valid() && fresh(buf) && Contents() == File([], 0)
    {
      buf := new Byte[0];
      size, eof, offset, saved := 0, 0, 0, 0;
    }

    /** ensureCapacity: grows by half, or to what is needed; the bytes stay. */
    method EnsureCapacity(writeSize: nat)
      requires Valid()
      modifies this`buf
      ensures buf == old(buf) || fresh(buf)
      ensures buf.Length >= offset + writeSize + 1 && buf.Length >= old(buf.Length)
      ensures forall i :: 0 <= i < old(buf.Length) ==> buf[i] == old(buf[i])
    {
      var needed := offset + writeSize + 1;
      if needed <= buf.Length {
        return;
      }
      var newSize := if buf.Length == 0 then INITIAL_SIZE else buf.Length + buf.Length / 2;
      if newSize < needed {
        newSize := needed;
      }
      var grown := new Byte[newSize];
      for i := 0 to buf.Length
        invariant buf == old(buf)
        invariant forall j :: 0 <= j < i ==> grown[j] == old(buf[j])
      {
        grown[i] := buf[i];
      }
      buf := grown;
    }

    method FillZeros(from: nat, to: nat)
      requires from <= to <= buf.Length
      modifies buf
      ensures forall i :: 0 <= i < buf.Length ==> buf[i] == if from <= i < to then 0 else old(buf[i])
    {
      for k := from to to
        invariant forall i :: 0 <= i < buf.Length ==> buf[i] == if from <= i < k then 0 else old(buf[i])
      {
        buf[k] := 0;
      }
    }

    method CopyIn(data: seq<Byte>)
      requires offset + |data| <= buf.Length
      modifies buf
      ensures forall i :: 0 <= i < buf.Length ==> buf[i] == if offset <= i < offset + |data| then data[i - offset] else old(buf[i])
    {
      for k := 0 to |data|
        invariant forall i :: 0 <= i < buf.Length ==> buf[i] == if offset <= i < offset + k then data[i - offset] else old(buf[i])
      {
        buf[offset + k] := data[k];
      }
    }

    /** The first half of write_memstream: room, zeros in the gap, and the data. */
    method Lay(data: seq<Byte>)
      requires Valid()
      modifies this`buf, buf
      ensures buf == old(buf) || fresh(buf)
      ensures offset + |data| < buf.Length && eof < buf.Length
      ensures forall i :: 0 <= i < eof || 0 <= i < offset + |data| ==> buf[i] == ByteWritten(old(Contents()), data, i)
      ensures offset + |data| < eof ==> buf[eof] == 0
    {
      ghost var f := Contents();
      EnsureCapacity(|data|);
      if eof < offset {
        FillZeros(eof, offset);
      }
      CopyIn(data);
    }

    /** write_memstream, when the buffer can grow. */
    method Put(data: seq<Byte>)
      requires Valid()
      modifies this, buf
      ensures Valid() && (buf == old(buf) || fresh(buf))
      ensures Contents() == Written(old(Contents()), data)
      ensures size == offset < buf.Length && buf[size] == 0
    {
      hide Laid, ByteWritten, Written;
      ghost var f := Contents();
      Lay(data);
      ghost var b := buf[..];
      offset := offset + |data|;
      if offset > eof {
        eof := offset;
      } else {
        saved := buf[offset];
      }
      buf[offset] := 0;
      size := offset;
      assert Contents().bytes == b[..eof];
      SameBytes(f, data, b[..eof]);
    }

    /** Puts the saved byte back. */
    method Restore()
      requires Valid()
      modifies buf
      ensures buf[..eof] == old(Contents()).bytes
      ensures forall i :: eof <= i < buf.Length ==> buf[i] == old(buf[i])
    {
      if offset < eof {
        buf[offset] := saved;
        assert buf[..eof] == old(buf[..eof])[offset := saved];
      }
    }

    /** Moves to n and publishes the size there. */
    method MoveTo(n: nat)
      requires eof < buf.Length || eof == buf.Length == 0
      requires buf.Length > 0 ==> buf[eof] == 0
      modifies this`offset, this`saved, this`size, buf
      ensures Valid() && Contents() == File(old(buf[..eof]), n)
    {
      offset := n;
      if offset < eof {
        saved := buf[offset];
        buf[offset] := 0;
        size := offset;
        assert buf[..eof][offset := saved] == old(buf[..eof]);
      } else {
        size := eof;
      }
    }

    /** seek_memstream: -1 and no change for a bad position. */
    method SeekTo(delta: int, whence: Whence) returns (r: int)
      requires Valid()
      modifies this, buf
      ensures Valid() && buf == old(buf)
      ensures Contents() == SeekFile(old(Contents()), delta, whence)
      ensures r == if GoodTarget(Target(old(Contents()), delta, whence)) then offset else -1
      ensures r != -1 ==>
                && (whence == FromStart ==> offset == delta)
                && (whence == FromCurrent ==> offset == old(offset) + delta)
                && (whence == FromEnd ==> offset == old(eof) + delta)
      ensures r == -1 ==> offset == old(offset)
    {
      var n := delta;
      if whence == FromCurrent {
        n := n + offset;
      } else if whence == FromEnd {
        n := n + eof;
      }
      if n < 0 || n >= SIZE_LIMIT {
        return -1;
      }
      Restore();
      MoveTo(n);
      r := n;
    }
  }

  function ByteWritten(f: File, data: seq<Byte>, i: nat): Byte {
    if f.pos <= i < f.pos + |data| then data[i - f.pos]
    else if i < |f.bytes| && !(data == [] && i == f.pos) then f.bytes[i]
    else 0
  }

  /** A sequence that agrees with a written file byte by byte is that file. */
  lemma SameBytes(f: File, data: seq<Byte>, b: seq<Byte>)
    requires |b| == |Laid(f, data)|
    requires forall i :: 0 <= i < |b| ==> b[i] == ByteWritten(f, data, i)
    ensures File(b, f.pos + |data|) == Written(f, data)
  {
    forall i | 0 <= i < |b|
      ensures b[i] == Written(f, data).bytes[i]
    {
      LaidBytes(f, data, i);
    }
    assert b == Written(f, data).bytes;
  }

  /** Every run of non-empty writes and seeks on a new stream holds the file, ended by a zero. */
  method RunAll(ops: seq<Op>) returns (s: Stream)
    requires forall i :: 0 <= i < |ops| && ops[i].Write? ==> ops[i].data != []
    ensures fresh(s) && fresh(s.buf) && s.Valid() && s.Contents() == Replay(ops)
    ensures s.size == if |Replay(ops).bytes| < Replay(ops).pos then |Replay(ops).bytes| else Replay(ops).pos
    ensures |Replay(ops).bytes| > 0 ==> s.size < s.buf.Length && s.buf[s.size] == 0
  {
    hide WriteFile, SeekFile;
    s := new Stream();
    for i := 0 to |ops|
      invariant fresh(s) && fresh(s.buf) && s.Valid() && s.Contents() == Replay(ops[..i])
    {
      assert ops[..i + 1][..i] == ops[..i];
      match ops[i] {
        case Write(data) =>
          WrittenIsFileExactly(s.Contents(), data);
          s.Put(data);
        case Seek(delta, whence) =>
          var _ := s.SeekTo(delta, whence);
      }
    }
    assert ops[..|ops|] == ops;
  }
}
