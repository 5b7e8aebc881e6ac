/** The JSONL file as the producer reads it through a RandomAccessFile. The
    byte-level splitting done by readLine is taken as already performed:
    `lines` are the strings successive readLine calls return, and `pos`
    counts how many of them have been read. */
module LineSource {

  import opened Wrappers

  datatype Reader = Reader(lines: seq<string>, pos: nat)

  /** A freshly opened file, positioned at its first byte. */
  function Open(lines: seq<string>): Reader {
    Reader(lines, 0)
  }

  /** getFilePointer() < length(): some line is still unread. */
  predicate HasMore(r: Reader) {
    r.pos < |r.lines|
  }

  /** readLine(): the next line and the advanced reader, or null (None) with
      the reader unchanged once the end of the file is reached. */
  function ReadLine(r: Reader): (res: (Option<string>, Reader))
    ensures res.1.lines == r.lines
    ensures res.0.Some? <==> HasMore(r)
    ensures HasMore(r) ==> res.0.value == r.lines[r.pos] && res.1.pos == r.pos + 1
    ensures !HasMore(r) ==> res.1 == r
  {
    if HasMore(r) then (Some(r.lines[r.pos]), r.(pos := r.pos + 1))
    else (None, r)
  }

  /** The recovery loop: `count` readLine calls whose results are dropped.
      Reads past the end return null and do not move the reader, so the
      reader stops at the end of the file when `count` exceeds what is left. */
  function Skip(r: Reader, count: nat): (r': Reader)
    requires r.pos <= |r.lines|
    ensures r'.lines == r.lines
    ensures r'.pos == if r.pos + count <= |r.lines| then r.pos + count else |r.lines|
    decreases count
  {
    if count == 0 then r else Skip(ReadLine(r).1, count - 1)
  }
}
