/** What the codecs learn from the file system, as plain values: whether a
    file exists, whether a stream on it opens, and the lines it holds. */
module Files {
  import opened Errors
  import Text

  /** A file as a line-reading loader sees it: either the stream did not open
      (and the file does or does not exist), or the lines `getline` returns. */
  datatype Input = Unreadable(present: bool) | Readable(lines: seq<string>)

  /** A save target: whether the path exists before the save, and whether an
      output stream on it opens. */
  datatype Target = Target(present: bool, opens: bool)

  /** The code for a stream that did not open: an existing file that could
      not be opened is an unknown I/O error, a missing one is not found. */
  function OpenFailure(present: bool): (c: ErrorCode)
    ensures c != None
    ensures c == FileNotFound <==> !present
    ensures c == UnknownIoError <==> present
  {
    if present then UnknownIoError else FileNotFound
  }

  /** What every `save_to_*` checks before it writes anything: the code it
      returns early with, or nothing when it goes on to write. */
  function SavePreflight(canOverwrite: bool, target: Target): (r: Text.Option<ErrorCode>)
    ensures r.None? <==> (canOverwrite || !target.present) && target.opens
    ensures !canOverwrite && target.present ==> r == Text.Some(FileAlreadyExists)
    ensures (canOverwrite || !target.present) && !target.opens ==> r == Text.Some(OpenFailure(target.present))
    ensures r.Some? ==> r.value in {FileAlreadyExists, FileNotFound, UnknownIoError}
  {
    if !canOverwrite && target.present then Text.Some(FileAlreadyExists)
    else if !target.opens then Text.Some(OpenFailure(target.present))
    else Text.None
  }

  /** With overwriting allowed, an existing file that opens is written. */
  lemma OverwriteAllowed(target: Target)
    requires target.present && target.opens
    ensures SavePreflight(true, target).None?
    ensures SavePreflight(false, target) == Text.Some(FileAlreadyExists)
  {
  }
}
