/** Buffering over an object store (cpp/metaspore/s3_sdk_filesys.cpp). */
module S3Streams {
  import opened Wrappers

  const READ_BUF_SIZE: nat := 8 * 1024 * 1024
  const WRITE_BUF_SIZE: nat := 5 * 1024 * 1024

  // ---- Reading ----

  /** Bytes `a` up to `b`. */
  function Cut(content: seq<byte>, a: nat, b: nat): (c: seq<byte>)
    requires a <= b <= |content|
    ensures |c| == b - a && forall i :: 0 <= i < b - a ==> c[i] == content[a + i]
  {
    content[a..b]
  }

  lemma CutJoin(content: seq<byte>, a: nat, b: nat, c: nat)
    requires a <= b <= c <= |content|
    ensures Cut(content, a, b) + Cut(content, b, c) == Cut(content, a, c)
  {}

  lemma CutOfCut(content: seq<byte>, a: nat, b: nat, i: nat, j: nat)
    requires a <= b <= |content| && i <= j <= b - a
    ensures Cut(content, a, b)[i..j] == Cut(content, a + i, a + j)
  {
    var whole, part := content[a..b][i..j], content[a + i..a + j];
    assert |whole| == |part| && forall k :: 0 <= k < |whole| ==> whole[k] == content[a..b][i + k] == part[k];
  }

  lemma CutNone(content: seq<byte>, a: nat)
    requires a <= |content|
    ensures Cut(content, a, a) == []
  {}

  /** The bytes a plain cursor at `pos` would read: as many as asked for, or all that are left. */
  function Window(content: seq<byte>, pos: nat, len: nat): (w: seq<byte>)
    requires pos <= |content|
    ensures |w| <= len && (|w| < len ==> pos + |w| == |content|)
    ensures pos + |w| <= |content| && forall i :: 0 <= i < |w| ==> w[i] == content[pos + i]
  {
    Cut(content, pos, if pos + len > |content| then |content| else pos + len)
  }

  /** A read stream with a prefetch buffer; `pos` runs ahead of what the caller has read. */
  class S3ReadStream {
    const content: seq<byte>
    var pos: nat
    var buf: seq<byte>
    var bufPos: nat
    var bufSize: nat

    ghost predicate Valid()
      reads this
    {
      && bufPos <= bufSize == |buf| <= pos <= |content|
      && buf == Cut(content, pos - bufSize, pos)
    }

    /** Where the caller stands. */
    ghost function Position(): (p: nat)
      reads this
      requires Valid()
      ensures p <= |content|
    {
      pos - (bufSize - bufPos)
    }

    constructor (content: seq<byte>)
      ensures Valid() && this.content == content && Position() == 0
    {
      this.content, pos, buf, bufPos, bufSize := content, 0, [], 0, 0;
      CutNone(content, 0);
    }

    function LeftRoom(): (n: nat)
      reads this
      requires Valid()
      ensures n == pos - Position()
    {
      bufSize - bufPos
    }

    method Clear()
      modifies this`buf, this`bufPos, this`bufSize
      ensures buf == [] && bufPos == 0 && bufSize == 0
    {
      buf, bufPos, bufSize := [], 0, 0;
    }

    /** One range request, clipped at the end of the object. */
    method ActualRead(size: nat) returns (data: seq<byte>)
      requires pos <= |content|
      modifies this`pos
      ensures data == Window(content, old(pos), size) && pos == old(pos) + |data|
    {
      if pos == |content| {
        CutNone(content, pos);
        return [];
      }
      var n := if pos + size > |content| then |content| - pos else size;
      data := Cut(content, pos, pos + n);
      pos := pos + n;
    }

    /** Throws the old buffer away and prefetches the next one. */
    method FillBuffer() returns (n: nat)
      requires pos <= |content|
      modifies this
      ensures Valid() && n == bufSize && Position() == old(pos)
      ensures n == 0 <==> old(pos) == |content|
      ensures bufPos == 0
    {
      hide Cut;
      Clear();
      buf := ActualRead(READ_BUF_SIZE);
      bufSize := |buf|;
      n := bufSize;
    }

    method UseBuffer(len: nat) returns (data: seq<byte>)
      requires Valid() && len <= LeftRoom()
      modifies this`bufPos
      ensures Valid() && Position() == old(Position()) + len && LeftRoom() == old(LeftRoom()) - len
      ensures data == Cut(content, old(Position()), old(Position()) + len)
    {
      hide Cut;
      CutOfCut(content, pos - bufSize, pos, bufPos, bufPos + len);
      data := buf[bufPos..bufPos + len];
      bufPos := bufPos + len;
    }

    /** Returns what the plain cursor would, and moves like it. */
    method Read(len: nat) returns (out: seq<byte>)
      requires Valid()
      modifies this
      ensures Valid()
      ensures out == Window(content, old(Position()), len)
      ensures Position() == old(Position()) + |out|
    {
      hide Cut;
      var left := LeftRoom();
      if left >= len {
        out := UseBuffer(len);
        return;
      }
      out := [];
      ghost var start := Position();
      CutNone(content, start);
      if left > 0 {
        out := UseBuffer(left);
      }
      var stillneed := len - left;
      while stillneed > 0
        invariant Valid() && bufPos == bufSize
        invariant len == |out| + stillneed && 0 <= stillneed && Position() == start + |out|
        invariant out == Cut(content, start, start + |out|)
      {
        ghost var at := Position();
        var nread := FillBuffer();
        if nread == 0 {
          return;
        }
        var take := if nread >= stillneed then stillneed else nread;
        CutJoin(content, start, at, at + take);
        var more := UseBuffer(take);
        out := out + more;
        if nread >= stillneed {
          return;
        }
        stillneed := stillneed - nread;
      }
    }

    /** Moves the cursor; beyond the end it throws and moves nothing. */
    method Seek(to: nat) returns (ok: bool)
      requires Valid()
      modifies this
      ensures Valid() && ok == (to <= |content|)
      ensures Position() == if ok then to else old(Position())
    {
      if to > |content| {
        return false;
      }
      pos := to;
      Clear();
      CutNone(content, to);
      ok := true;
    }

    method Tell() returns (p: nat)
      requires Valid()
      ensures p == Position()
    {
      p := pos - LeftRoom();
    }
  }

  datatype ReadOp = ReadOp(len: nat) | SeekOp(to: nat)

  /** Where a plain cursor on the object stands after the first `i` operations. */
  function CursorAfter(content: seq<byte>, start: nat, ops: seq<ReadOp>, i: nat): (p: nat)
    requires start <= |content| && i <= |ops|
    ensures p <= |content|
  {
    if i == 0 then start
    else
      var p := CursorAfter(content, start, ops, i - 1);
      match ops[i - 1]
      case ReadOp(len) => if p + len > |content| then |content| else p + len
      case SeekOp(to) => if to > |content| then p else to
  }

  /** What the plain cursor answers to operation `i`. */
  function CursorAnswer(content: seq<byte>, start: nat, ops: seq<ReadOp>, i: nat): seq<byte>
    requires start <= |content| && i < |ops|
  {
    match ops[i]
    case ReadOp(len) => Window(content, CursorAfter(content, start, ops, i), len)
    case SeekOp(_) => []
  }

  /** Every sequence of reads and seeks is answered as the plain cursor answers it. */
  method Replay(stream: S3ReadStream, ops: seq<ReadOp>) returns (answers: seq<seq<byte>>)
    requires stream.Valid()
    modifies stream
    ensures stream.Valid() && stream.Position() == CursorAfter(stream.content, old(stream.Position()), ops, |ops|)
    ensures |answers| == |ops|
    ensures forall i :: 0 <= i < |ops| ==> answers[i] == CursorAnswer(stream.content, old(stream.Position()), ops, i)
  {
    answers := [];
    ghost var start := stream.Position();
    for i := 0 to |ops|
      invariant stream.Valid() && stream.Position() == CursorAfter(stream.content, start, ops, i) && |answers| == i
      invariant forall j :: 0 <= j < i ==> answers[j] == CursorAnswer(stream.content, start, ops, j)
    {
      var answer: seq<byte> := [];
      match ops[i] {
        case ReadOp(len) => answer := stream.Read(len);
        case SeekOp(to) => var _ := stream.Seek(to);
      }
      answers := answers + [answer];
    }
  }

  // ---- Writing ----

  datatype Part = Part(number: nat, data: seq<byte>)

  /** The parts of an upload put together in order. */
  function Joined(parts: seq<Part>): seq<byte> {
    if parts == [] then [] else Joined(parts[..|parts| - 1]) + parts[|parts| - 1].data
  }

  /** Parts put together are their data one after the other. */
  lemma {:induction false} JoinedAppend(a: seq<Part>, b: seq<Part>)
    ensures Joined(a + b) == Joined(a) + Joined(b)
    ensures |a| == 1 ==> Joined(a) == a[0].data
    decreases |b|
  {
    if b == [] {
      assert a + b == a;
    } else {
      JoinedAppend(a, b[..|b| - 1]);
      assert (a + b)[..|a + b| - 1] == a + b[..|b| - 1];
    }
    assert |a| == 1 ==> a[..0] == [];
  }

  /** What the store shows under the key. */
  datatype Stored = Absent | Object(bytes: seq<byte>)

  /** Numbers run 1, 2, ... and every part but possibly the last has the least size the store accepts. */
  ghost predicate GoodParts(parts: seq<Part>) {
    && (forall i :: 0 <= i < |parts| ==> parts[i].number == i + 1 && parts[i].data != [])
    && (forall i :: 0 <= i < |parts| - 1 ==> |parts[i].data| >= WRITE_BUF_SIZE)
  }

  ghost predicate AllLarge(parts: seq<Part>) {
    forall i :: 0 <= i < |parts| ==> |parts[i].data| >= WRITE_BUF_SIZE
  }

  lemma JoinedSnoc(parts: seq<Part>, part: Part)
    ensures Joined(parts + [part]) == Joined(parts) + part.data
  {
    assert (parts + [part])[..|parts|] == parts;
  }

  lemma LargeSnoc(parts: seq<Part>, part: Part)
    requires AllLarge(parts)
    ensures |part.data| >= WRITE_BUF_SIZE ==> AllLarge(parts + [part])
  {}

  lemma GoodSnoc(parts: seq<Part>, part: Part)
    requires GoodParts(parts) && AllLarge(parts) && part.number == |parts| + 1 && part.data != []
    ensures GoodParts(parts + [part])
  {
    hide AllLarge;
    var more := parts + [part];
    forall i | 0 <= i < |more| ensures more[i].number == i + 1 && more[i].data != [] {}
    forall i | 0 <= i < |more| - 1 ensures |more[i].data| >= WRITE_BUF_SIZE {
      LargeAt(parts, i);
    }
  }

  lemma LargeAt(parts: seq<Part>, i: nat)
    requires AllLarge(parts) && i < |parts|
    ensures |parts[i].data| >= WRITE_BUF_SIZE
  {}

  lemma PartsSnoc(parts: seq<Part>, data: seq<byte>)
    ensures Joined(parts + [Part(|parts| + 1, data)]) == Joined(parts) + data
    ensures GoodParts(parts) && AllLarge(parts) && data != [] ==> GoodParts(parts + [Part(|parts| + 1, data)])
    ensures AllLarge(parts) && |data| >= WRITE_BUF_SIZE ==> AllLarge(parts + [Part(|parts| + 1, data)])
  {
    hide Joined, GoodParts, AllLarge;
    JoinedSnoc(parts, Part(|parts| + 1, data));
    if AllLarge(parts) {
      LargeSnoc(parts, Part(|parts| + 1, data));
      if GoodParts(parts) && data != [] {
        GoodSnoc(parts, Part(|parts| + 1, data));
      }
    }
  }

  /** A multipart upload; `written` records every byte handed over so far. */
  class WriteBuffer {
    var buf: seq<byte>
    var parts: seq<Part>
    var stored: Stored
    ghost var written: seq<byte>

    ghost predicate Valid()
      reads this
    {
      && |buf| < WRITE_BUF_SIZE && Joined(parts) + buf == written
      && GoodParts(parts) && AllLarge(parts)
    }

    constructor ()
      ensures Valid() && written == [] && parts == [] && stored == Absent
    {
      buf, parts, stored, written := [], [], Absent, [];
    }

    method Write(data: seq<byte>)
      requires Valid()
      modifies this
      ensures Valid() && written == old(written) + data && stored == old(stored)
      ensures parts == old(parts) || parts == old(parts) + [Part(|old(parts)| + 1, old(buf) + data)]
    {
      hide Joined, GoodParts, AllLarge;
      assert Joined(parts) + (buf + data) == written + data;
      buf := buf + data;
      written := written + data;
      if |buf| >= WRITE_BUF_SIZE {
        PartsSnoc(parts, buf);
        DoUploadPart();
        buf := [];
        assert Joined(parts) + buf == Joined(parts);
      }
    }

    method DoUploadPart()
      modifies this`parts
      ensures parts == old(parts) + [Part(|old(parts)| + 1, buf)]
    {
      parts := parts + [Part(|parts| + 1, buf)];
    }

    method DoPutObject()
      modifies this`stored
      ensures stored == Object(buf)
    {
      stored := Object(buf);
    }

    /** Finishes the upload: the object is what was written, and nothing is stored when that is empty. */
    method Close()
      requires Valid() && stored == Absent
      modifies this
      ensures stored == if old(written) == [] then Absent else Object(old(written))
      ensures GoodParts(parts) && (parts == [] || Joined(parts) == old(written))
      ensures parts != [] <==> |old(written)| >= WRITE_BUF_SIZE
    {
      hide Joined, GoodParts, AllLarge;
      PartsAreLarge(parts);
      PartsSnoc(parts, buf);
      assert |buf| == 0 ==> Joined(parts) + buf == Joined(parts);
      if |buf| > 0 {
        if |parts| == 0 {
          DoPutObject();
        } else {
          DoUploadPart();
        }
      }
      if |parts| > 0 {
        stored := Object(Joined(parts));
      }
    }
  }

  lemma PartsAreLarge(parts: seq<Part>)
    requires AllLarge(parts)
    ensures parts == [] ==> Joined(parts) == []
    ensures parts != [] ==> |Joined(parts)| >= WRITE_BUF_SIZE
  {}

  const MAX_BLOCK_SIZE: nat := 5 * 1024 * 1024

  /** The parts from `n` on stay below twice the buffer size. */
  ghost predicate SmallFrom(parts: seq<Part>, n: nat) {
    forall i :: n <= i < |parts| ==> |parts[i].data| < 2 * WRITE_BUF_SIZE
  }

  /**
    Writes a large buffer block by block.  What is written is the buffer, as in one
    write, but no part grows to twice the buffer size.
   */
  method WriteBlocks(stream: WriteBuffer, data: seq<byte>)
    requires stream.Valid()
    modifies stream
    ensures stream.Valid() && stream.written == old(stream.written) + data && stream.stored == old(stream.stored)
    ensures old(stream.parts) <= stream.parts && SmallFrom(stream.parts, |old(stream.parts)|)
  {
    hide Joined, GoodParts, AllLarge, Cut;
    ghost var before := stream.written;
    var buffer, size := 0, |data|;
    CutNone(data, 0);
    while size > 0
      invariant buffer + size == |data| && 0 <= size
      invariant stream.Valid() && stream.written == before + Cut(data, 0, buffer) && stream.stored == old(stream.stored)
      invariant old(stream.parts) <= stream.parts && SmallFrom(stream.parts, |old(stream.parts)|)
    {
      var n := MAX_BLOCK_SIZE;
      if n > size {
        n := size;
      }
      stream.Write(Cut(data, buffer, buffer + n));
      CutJoin(data, 0, buffer, buffer + n);
      buffer := buffer + n;
      size := size - n;
    }
    CutAll(data);
  }

  lemma CutAll(content: seq<byte>)
    ensures Cut(content, 0, |content|) == content
  {}
}
