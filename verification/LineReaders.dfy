/** Reading a text file line by line from a stream of arbitrary chunks (cpp/metaspore/array_hash_map_reader.h). */
module LineReaders {

  const LINE_TERMINATOR := '\n'
  const BUFFER_SIZE: nat := 2 * 1024 * 1024

  /** The position of the first `c` from `pos` on, or the length when there is none. */
  function FindFrom(s: string, c: char, pos: nat): (n: nat)
    requires pos <= |s|
    ensures pos <= n <= |s|
    ensures n < |s| ==> s[n] == c
    ensures forall i :: pos <= i < n ==> s[i] != c
    decreases |s| - pos
  {
    if pos == |s| || s[pos] == c then pos else FindFrom(s, c, pos + 1)
  }

  lemma {:induction false} FindNone(s: string, c: char, pos: nat)
    requires c !in s && pos <= |s|
    ensures FindFrom(s, c, pos) == |s|
    decreases |s| - pos
  {
    if pos < |s| {
      assert s[pos] in s;
      FindNone(s, c, pos + 1);
    }
  }

  /** The lines of a text; a last line may lack its terminator. */
  function Lines(s: string): seq<string>
    decreases |s|
  {
    var n := FindFrom(s, LINE_TERMINATOR, 0);
    if n < |s| then [s[..n]] + Lines(s[n + 1..])
    else if s == [] then [] else [s]
  }

  /** Lines with their numbers, counted from 1. */
  function Numbered(lines: seq<string>): (r: seq<(nat, string)>)
    ensures |r| == |lines|
  {
    seq(|lines|, i requires 0 <= i < |lines| => (i + 1, lines[i]))
  }

  lemma FirstIs(s: string, c: char, pos: nat, n: nat)
    requires pos <= n < |s| && s[n] == c && forall i :: pos <= i < n ==> s[i] != c
    ensures FindFrom(s, c, pos) == n
  {}

  /** A terminator ends the first line, whatever follows. */
  lemma LinesFirst(line: string, rest: string)
    requires LINE_TERMINATOR !in line
    ensures Lines(line + [LINE_TERMINATOR] + rest) == [line] + Lines(rest)
  {
    var s := line + [LINE_TERMINATOR] + rest;
    FirstIs(s, LINE_TERMINATOR, 0, |line|);
    assert s[..|line|] == line && s[|line| + 1..] == rest;
  }

  /** A line ends with a line feed, which belongs to no line. */
  lemma LineFeedEnds(line: string, rest: string)
    requires '\n' !in line
    ensures Lines(line + "\n" + rest) == [line] + Lines(rest)
    ensures Lines(line) == if line == [] then [] else [line]
  {
    LinesFirst(line, rest);
    FindNone(line, LINE_TERMINATOR, 0);
  }

  lemma LinesOf(s: string)
    ensures var n := FindFrom(s, LINE_TERMINATOR, 0);
            Lines(s) == if n < |s| then [s[..n]] + Lines(s[n + 1..]) else if s == [] then [] else [s]
  {}

  /** Terminating an unterminated last line changes no line. */
  lemma {:induction false} LinesTerminated(s: string)
    requires s != [] && s[|s| - 1] != LINE_TERMINATOR
    ensures Lines(s + [LINE_TERMINATOR]) == Lines(s)
    decreases |s|
  {
    hide Lines, FindFrom;
    LinesOf(s);
    LinesOf([]);
    var n := FindFrom(s, LINE_TERMINATOR, 0);
    if n < |s| {
      var line, rest := s[..n], s[n + 1..];
      assert s == line + [LINE_TERMINATOR] + rest;
      LinesTerminated(rest);
      LinesFirst(line, rest);
      LinesFirst(line, rest + [LINE_TERMINATOR]);
      assert s + [LINE_TERMINATOR] == line + [LINE_TERMINATOR] + (rest + [LINE_TERMINATOR]);
    } else {
      LinesFirst(s, []);
      assert s + [LINE_TERMINATOR] == s + [LINE_TERMINATOR] + [];
    }
  }

  /**
    A stream that delivers its content in pieces of any size.  A `full` one, as a file or
    an S3 object is, comes back short only at its end.
   */
  class Stream {
    const content: string
    const full: bool
    var pos: nat

    ghost predicate Valid()
      reads this
    {
      pos <= |content|
    }

    ghost function Remaining(): string
      reads this
      requires Valid()
    {
      content[pos..]
    }

    constructor (content: string, full: bool)
      ensures Valid() && this.content == content && this.full == full && Remaining() == content
    {
      this.content, this.full, pos := content, full, 0;
    }

    /** Between 1 and `n` characters; none only at the end of the content. */
    method Read(n: nat) returns (chunk: string)
      requires Valid() && n > 0
      modifies this
      ensures Valid() && |chunk| <= n
      ensures chunk + Remaining() == old(Remaining())
      ensures chunk == [] ==> old(Remaining()) == []
      ensures full && |chunk| < n ==> Remaining() == []
    {
      var left := |content| - pos;
      var k: nat := 0;
      if left > 0 {
        var most := if left < n then left else n;
        var guess: nat := *;
        k := if !full && 1 <= guess <= most then guess else most;
      }
      assert content[pos..pos + k] + content[pos + k..] == content[pos..];
      chunk := content[pos..pos + k];
      pos := pos + k;
    }
  }

  /** How many lines are processed: up to and including the first that is rejected. */
  function Accepted(lines: seq<string>, accepts: string -> bool): (n: nat)
    ensures n <= |lines|
    ensures forall i :: 0 <= i < n ==> accepts(lines[i])
    ensures n < |lines| ==> !accepts(lines[n])
  {
    if lines == [] || !accepts(lines[0]) then 0 else 1 + Accepted(lines[1..], accepts)
  }

  lemma {:induction false} AcceptedIs(lines: seq<string>, accepts: string -> bool, n: nat)
    requires n <= |lines| && (forall i :: 0 <= i < n ==> accepts(lines[i])) && (n < |lines| ==> !accepts(lines[n]))
    ensures Accepted(lines, accepts) == n
  {
    if n > 0 {
      AcceptedIs(lines[1..], accepts, n - 1);
    }
  }

  class LineReader {
    const stream: Stream
    const accepts: string -> bool
    var buffer: string
    var eofReached: bool
    var processed: seq<(nat, string)>

    ghost predicate Valid()
      reads this, stream
    {
      stream.Valid() && (eofReached ==> stream.Remaining() == [])
    }

    /** What is still to be split into lines. */
    ghost function Rest(): string
      reads this, stream
      requires Valid()
    {
      buffer + stream.Remaining()
    }

    constructor (stream: Stream, accepts: string -> bool)
      requires stream.Valid()
      ensures Valid() && this.stream == stream && this.accepts == accepts
      ensures Rest() == stream.Remaining() && processed == [] && !eofReached
    {
      this.stream, this.accepts := stream, accepts;
      buffer, eofReached, processed := [], false, [];
    }

    /**
      Reads a header.  The file is binary when a whole header came with a valid signature;
      otherwise the characters read stay in the buffer.
     */
    method DetectBinaryMode(headerSize: nat, signatureValid: string -> bool)
      returns (binary: bool, ghost header: string)
      requires Valid() && headerSize > 0
      modifies this, stream
      ensures Valid() && processed == old(processed) && eofReached == old(eofReached)
      ensures header + stream.Remaining() == old(stream.Remaining()) && |header| <= headerSize
      ensures stream.full && |header| < headerSize ==> stream.Remaining() == []
      ensures binary <==> |header| == headerSize && signatureValid(header)
      ensures buffer == if binary then old(buffer) else old(buffer) + header
      ensures !binary ==> Rest() == old(Rest())
    {
      var read := stream.Read(headerSize);
      header := read;
      if |read| == headerSize && signatureValid(read) {
        return true, header;
      }
      ghost var was := stream.Remaining();
      buffer := buffer + read;
      binary := false;
      assert buffer + was == old(buffer) + (read + was);
    }

    /** Appends the next chunk; at the end of the stream, terminates what is left over. */
    method FillBuffer() returns (more: bool)
      requires Valid() && (eofReached ==> buffer == [])
      modifies this`buffer, this`eofReached, stream
      ensures Valid() && Lines(Rest()) == old(Lines(Rest()))
      ensures more ==> !old(eofReached) && buffer != []
      ensures more && !eofReached ==> |stream.Remaining()| < |old(stream.Remaining())|
      ensures more && eofReached ==> buffer[|buffer| - 1] == LINE_TERMINATOR
      ensures !more ==> eofReached && Rest() == []
    {
      hide Lines;
      if eofReached {
        return false;
      }
      ghost var before := Rest();
      var chunk := stream.Read(BUFFER_SIZE);
      buffer := buffer + chunk;
      assert before == buffer + stream.Remaining();
      if |chunk| == 0 {
        assert before == buffer;
        if buffer != [] && buffer[|buffer| - 1] != LINE_TERMINATOR {
          LinesTerminated(buffer);
          buffer := buffer + [LINE_TERMINATOR];
        }
        eofReached := true;
        assert Rest() == buffer;
      }
      more := buffer != [];
    }

    method ProcessLine(lineno: nat, text: string) returns (ok: bool)
      modifies this`processed
      ensures processed == old(processed) + [(lineno, text)] && ok == accepts(text)
    {
      processed := processed + [(lineno, text)];
      ok := accepts(text);
    }

    /** Processes the complete lines of the buffer and drops them from it. */
    method DrainBuffer(lineno: nat, ghost lines: seq<string>) returns (ok: bool, now: nat)
      requires Valid() && |processed| == lineno <= |lines|
      requires processed == Numbered(lines[..lineno]) && lines[lineno..] == Lines(Rest())
      requires forall i :: 0 <= i < lineno ==> accepts(lines[i])
      modifies this`buffer, this`processed
      ensures Valid() && now == |processed| <= |lines| && processed == Numbered(lines[..now])
      ensures ok ==> lines[now..] == Lines(Rest()) && LINE_TERMINATOR !in buffer
      ensures ok ==> forall i :: 0 <= i < now ==> accepts(lines[i])
      ensures ok && old(buffer) != [] && old(buffer)[|old(buffer)| - 1] == LINE_TERMINATOR ==> buffer == []
      ensures !ok ==> 0 < now && !accepts(lines[now - 1]) && forall i :: 0 <= i < now - 1 ==> accepts(lines[i])
    {
      hide Lines, Numbered;
      ghost var rest := stream.Remaining();
      var pos := 0;
      now := lineno;
      var n := FindFrom(buffer, LINE_TERMINATOR, pos);
      assert buffer[0..] == buffer;
      while n < |buffer|
        invariant pos <= n <= |buffer| && n == FindFrom(buffer, LINE_TERMINATOR, pos)
        invariant now == |processed| <= |lines| && processed == Numbered(lines[..now])
        invariant lines[now..] == Lines(buffer[pos..] + rest)
        invariant forall i :: 0 <= i < now ==> accepts(lines[i])
        invariant buffer == old(buffer) && stream.Remaining() == rest
      {
        var text := buffer[pos..n];
        assert buffer[pos..] + rest == text + [LINE_TERMINATOR] + (buffer[n + 1..] + rest);
        LinesFirst(text, buffer[n + 1..] + rest);
        NextLine(lines, now, text, Lines(buffer[n + 1..] + rest));
        var accepted := ProcessLine(now + 1, text);
        now := now + 1;
        if !accepted {
          return false, now;
        }
        pos := n + 1;
        n := FindFrom(buffer, LINE_TERMINATOR, pos);
      }
      assert pos < |buffer| ==> buffer[|buffer| - 1] != LINE_TERMINATOR;
      buffer := buffer[pos..];
      ok := true;
    }

    /**
      Processes the whole input.  The lines handed on are those of the input, in order and
      numbered from 1, however the stream cuts it; a rejected line ends the reading.
     */
    method Read() returns (ok: bool)
      requires Valid() && !eofReached && processed == []
      modifies this, stream
      ensures var lines := old(Lines(Rest())); var n := Accepted(lines, accepts);
              && (ok <==> n == |lines|)
              && processed == Numbered(lines[..if ok then n else n + 1])
      ensures var lines := old(Lines(Rest()));
              && |processed| <= |lines|
              && forall i :: 0 <= i < |processed| ==> processed[i] == (i + 1, lines[i])
    {
      hide Lines, Numbered;
      ghost var lines := Lines(Rest());
      NumberedFrom1(lines);
      var lineno := 0;
      NoneYet(lines);
      var more := FillBuffer();
      while more
        invariant Valid() && |processed| == lineno <= |lines|
        invariant processed == Numbered(lines[..lineno]) && lines[lineno..] == Lines(Rest())
        invariant forall i :: 0 <= i < lineno ==> accepts(lines[i])
        invariant more ==> buffer != [] && (eofReached ==> buffer[|buffer| - 1] == LINE_TERMINATOR)
        invariant !more ==> Rest() == []
        decreases |stream.Remaining()|, !eofReached, more
      {
        ok, lineno := DrainBuffer(lineno, lines);
        if !ok {
          AcceptedIs(lines, accepts, lineno - 1);
          return false;
        }
        more := FillBuffer();
      }
      AllRead(lines, lineno);
      AcceptedIs(lines, accepts, |lines|);
      ok := true;
    }
  }

  /** What the header of a binary map begins with. */
  const MAP_FILE_SIGNATURE: string := [137 as char] + "MemoryMappedArrayHashMap\0\0\0\0\0\0\0"

  predicate SignatureValid(header: string) {
    MAP_FILE_SIGNATURE <= header
  }

  /** A header is valid when it begins with these 32 bytes, and only then. */
  lemma SignatureIs(rest: string, header: string)
    ensures SignatureValid([137 as char] + "MemoryMappedArrayHashMap" + "\0\0\0\0\0\0\0" + rest)
    ensures SignatureValid(header) ==>
              |header| >= 32 && header[0] == 137 as char && header[1..25] == "MemoryMappedArrayHashMap"
    ensures SignatureValid(header) ==> forall i :: 25 <= i < 32 ==> header[i] == 0 as char
  {
    var name := "MemoryMappedArrayHashMap";
    var sig := [137 as char] + name + "\0\0\0\0\0\0\0";
    assert MAP_FILE_SIGNATURE == sig;
    if SignatureValid(header) {
      assert forall i :: 0 <= i < 24 ==> header[i + 1] == sig[i + 1] == name[i];
      assert header[1..25] == name;
    }
  }

  /** The content begins with a whole header that has a valid signature. */
  predicate IsBinary(content: string, headerSize: nat, signatureValid: string -> bool) {
    headerSize <= |content| && signatureValid(content[..headerSize])
  }

  /** A header that was read whole, or cut short only by the end, is what the content begins with. */
  lemma HeaderIsPrefix(content: string, header: string, rest: string, headerSize: nat)
    requires header + rest == content && |header| <= headerSize && (|header| < headerSize ==> rest == [])
    ensures |header| == headerSize <==> headerSize <= |content|
    ensures |header| == headerSize ==> content[..headerSize] == header
  {}

  /**
    A file is read as a binary map only when it begins with a valid header, and on a
    stream that comes back short only at its end exactly then; its header is consumed.
    Any other file is read as text from its first character on: the prefix the failed
    detection consumed is part of the lines, for every way the stream delivers it.
   */
  method ReadTextFile(reader: LineReader, headerSize: nat, signatureValid: string -> bool)
    returns (binary: bool, ok: bool)
    requires reader.Valid() && reader.buffer == [] && !reader.eofReached && reader.processed == [] && headerSize > 0
    modifies reader, reader.stream
    ensures binary ==> IsBinary(old(reader.stream.Remaining()), headerSize, signatureValid)
    ensures reader.stream.full ==> (binary <==> IsBinary(old(reader.stream.Remaining()), headerSize, signatureValid))
    ensures binary ==> reader.processed == [] && reader.stream.Valid() && reader.buffer == []
                       && old(reader.stream.Remaining())[..headerSize] + reader.stream.Remaining()
                          == old(reader.stream.Remaining())
    ensures !binary ==>
              var lines := Lines(old(reader.stream.Remaining())); var n := Accepted(lines, reader.accepts);
              && (ok <==> n == |lines|)
              && reader.processed == Numbered(lines[..if ok then n else n + 1])
  {
    hide Lines, Numbered;
    ghost var content := reader.stream.Remaining();
    assert reader.Rest() == content;
    ghost var header;
    binary, header := reader.DetectBinaryMode(headerSize, signatureValid);
    assert content == header + reader.stream.Remaining();
    if |header| == headerSize || reader.stream.full {
      HeaderIsPrefix(content, header, reader.stream.Remaining(), headerSize);
    }
    ok := binary;
    if !binary {
      ok := reader.Read();
    }
  }

  lemma NumberedFrom1(lines: seq<string>)
    ensures forall n :: 0 <= n <= |lines| ==>
              && |Numbered(lines[..n])| == n
              && forall i :: 0 <= i < n ==> Numbered(lines[..n])[i] == (i + 1, lines[i])
  {}

  lemma NoneYet(lines: seq<string>)
    ensures [] == Numbered(lines[..0]) && lines[0..] == lines
  {}

  lemma AllRead(lines: seq<string>, n: nat)
    requires n <= |lines| && lines[n..] == Lines([])
    ensures n == |lines|
  {}

  lemma NextLine(lines: seq<string>, n: nat, line: string, rest: seq<string>)
    requires n <= |lines| && lines[n..] == [line] + rest
    ensures n < |lines| && lines[n] == line && lines[n + 1..] == rest
    ensures Numbered(lines[..n + 1]) == Numbered(lines[..n]) + [(n + 1, line)]
  {
    assert lines[n] == lines[n..][0];
    assert lines[n + 1..] == lines[n..][1..];
  }
}
