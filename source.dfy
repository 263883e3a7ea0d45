/**
 * Source text locator: recovers the verbatim bytes between two resolved
 * positions of a source file. The process-wide `token.FileSet` and the file
 * system are replaced by an explicit `Disk` value and by spans whose positions
 * are already resolved to (file name, byte offset).
 */
module Source {
  import opened Basics

  /** The files the engine can open, by name, with their bytes. */
  type Disk = map<string, seq<Byte>>

  /** A node's resolved `Pos()` and `End()`: the half-open byte range [start, end) of `filename`. */
  datatype Span = Span(filename: string, start: nat, end: nat)
  {
    /** The parser never produces an end before the start; Go would panic on the negative length. */
    predicate Valid() { start <= end }
  }

  /** `os.Open`: fails when the file does not exist. */
  function Open(disk: Disk, filename: string): (r: Result<seq<Byte>>)
    ensures r.Ok? <==> filename in disk
    ensures r.Ok? ==> r.value == disk[filename]
    ensures r.Err? ==> r.error == CannotOpen(filename)
  {
    if filename in disk then Ok(disk[filename]) else Err(CannotOpen(filename))
  }

  /**
   * `ReadAt` of `end - start` bytes at offset `start` of an opened file. An
   * empty read succeeds without touching the file; otherwise every requested
   * byte must exist.
   */
  function ReadAt(content: seq<Byte>, start: nat, end: nat): (r: Option<seq<Byte>>)
    requires start <= end
    ensures r.Some? <==> start == end || end <= |content|
    ensures r.Some? ==> |r.value| == end - start && forall i :: 0 <= i < |r.value| ==> r.value[i] == content[start + i]
  {
    if start == end then Some([])
    else if end <= |content| then Some(content[start..end])
    else None
  }

  /**
   * Open the span's file and read exactly the bytes the span covers, failing
   * as a field's type read does.
   */
  function ReadSpan(disk: Disk, span: Span): (r: Result<seq<Byte>>)
    requires span.Valid()
    ensures r.Ok? <==> span.filename in disk && (span.start == span.end || span.end <= |disk[span.filename]|)
    ensures span.filename !in disk ==> r == Err(CannotOpen(span.filename))
    ensures span.filename in disk && r.Err? ==> r == Err(CannotReadPosition(span.filename, span.start, span.end))
    ensures r.Ok? ==> (|r.value| == span.end - span.start &&
      forall i :: 0 <= i < |r.value| ==> r.value[i] == disk[span.filename][span.start + i])
  {
    match Open(disk, span.filename)
    case Err(e) => Err(e)
    case Ok(content) =>
      match ReadAt(content, span.start, span.end)
      case None => Err(CannotReadPosition(span.filename, span.start, span.end))
      case Some(b) => Ok(b)
  }
}
