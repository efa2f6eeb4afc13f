/**
 What `read_chunked` of `tools/record-fixtures/raw_capture.py` makes of a stream, well formed or not,
 a line at a time: together the laws below fix the body, the error and the rest for every stream.
 */
module ChunkedTurns {
  import opened Bytes
  import opened Chunked
  import opened RequestBody
  import opened Wrappers

  lemma LineOff(line: bytes, rest: bytes)
    requires 10 !in line
    ensures var s := line + [10] + rest;
            LineLength(s) == |line| + 1 && s[..|line| + 1] == line + [10] && s[|line| + 1..] == rest
  {
    FirstLine(line, rest);
  }

  // ---- Sizes that end the body ----

  lemma NothingFails()
    ensures Decode([]) == Failed
  {
    NoSizeInNothing();
  }

  /** A line that isn't a size, or a negative one, is an error. */
  lemma BadSize(line: bytes, rest: bytes)
    requires 10 !in line
    requires var size := ChunkSize(line + [10]); size.None? || size.value < 0
    ensures Decode(line + [10] + rest) == Failed
  {
    LineOff(line, rest);
    if ChunkSize(line + [10]) == Some(-1) {
      assert rest[|rest|..] == [];
      NothingFails();
    }
  }

  /** A size the peer closes without a LF after. */
  lemma UnendedSize(line: bytes)
    requires 10 !in line
    ensures Decode(line) == if ChunkSize(line) == Some(0) then Ok([], []) else Failed
  {
    UnendedLine(line);
    assert line[..|line|] == line && line[|line|..] == [];
    NothingFails();
  }

  /** Zero ends the body, and the trailers are skipped. */
  lemma ZeroSize(line: bytes, rest: bytes)
    requires 10 !in line && ChunkSize(line + [10]) == Some(0)
    ensures Decode(line + [10] + rest) == Ok([], AfterTrailers(rest))
  {
    LineOff(line, rest);
  }

  // ---- Chunks ----

  /** A chunk's data is taken by its size, and the line it ends in is dropped, whatever it holds. */
  lemma ChunkOff(line: bytes, data: bytes, end: bytes, rest: bytes)
    requires 10 !in line && 10 !in end && data != [] && ChunkSize(line + [10]) == Some(|data|)
    ensures Decode(line + [10] + (data + (end + [10] + rest))) == Prepend(data, Decode(rest))
  {
    var tail := end + [10] + rest;
    LineOff(line, data + tail);
    LineOff(end, rest);
    DropOf(data, tail);
  }

  /** A chunk the peer closes in, or just behind, is an error. */
  lemma ShortChunk(line: bytes, data: bytes, size: nat)
    requires 10 !in line && ChunkSize(line + [10]) == Some(size) && |data| <= size && size > 0
    ensures Decode(line + [10] + data) == Failed
  {
    LineOff(line, data);
    assert data[..|data|] == data && data[|data|..] == [];
    assert OneChunk(line + [10] + data) == More(data, []);
    NothingFails();
  }

  // ---- Trailers ----

  lemma TrailerOff(line: bytes, rest: bytes)
    requires 10 !in line
    ensures AfterTrailers(line + [10] + rest) == if Strip(line + [10]) == [] then rest else AfterTrailers(rest)
  {
    LineOff(line, rest);
  }

  /** Trailers the peer closes in. */
  lemma UnendedTrailers(line: bytes)
    requires 10 !in line
    ensures AfterTrailers(line) == []
  {
    UnendedLine(line);
    assert line[..|line|] == line && line[|line|..] == [];
  }

  // ---- Refusals ----

  /** A request whose headers announce no body it could have is refused, and nothing is read. */
  lemma UnannouncedIsRefused(h: Head, sent: bytes)
    requires forall m :: !Announces(h, m)
    ensures Recorded(sent, FramingOf(h)) == None && Left(sent, FramingOf(h)) == sent
  {
    var framing := FramingOf(h);
    var m := if framing.Sized? then Plain(seq(framing.length, _ => 0))
             else Cut([], Chunk([48], [], [], []), []);
    FramedAsAnnounced(h, m);
    assert !Announces(h, m);
  }
}
