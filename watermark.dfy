/** The single-value store behind `get_last_cve_id` / `save_last_cve_id`: the
    text file `last_cve.txt`, modelled as its content (`None` when the file
    does not exist). */
module Watermark {
  import opened Wrappers
  import opened PyStr

  /** How a `save_last_cve_id` call ended. `open(..., 'w')` may fail, leaving
      the file as it was; or it may succeed (truncating the file) and the
      write fail afterwards, leaving only the first `kept` characters. Either
      failure is logged and swallowed. */
  datatype WriteOutcome = Written | OpenFailed | Truncated(kept: nat)

  /** `get_last_cve_id`: the stripped file content, or `None` when the file
      does not exist or cannot be read. */
  function ReadWatermark(file: Option<string>, readable: bool): (r: Option<string>)
    ensures r.None? <==> file.None? || !readable
  {
    if file.Some? && readable then Some(Strip(file.value)) else None
  }

  /** The file after `save_last_cve_id(id)`. */
  function AfterWrite(file: Option<string>, id: string, outcome: WriteOutcome): Option<string> {
    match outcome
    case Written => Some(id)
    case OpenFailed => file
    case Truncated(kept) => Some(SliceTo(id, kept))
  }

  /** An identifier as the feed issues them: non-empty, with no surrounding
      whitespace. */
  predicate CleanId(id: string) {
    id != [] && !IsSpace(id[0]) && !IsSpace(id[|id| - 1])
  }

  /** Round trip: what a successful save wrote is what the next read returns. */
  lemma ReadBackWritten(file: Option<string>, id: string)
    requires CleanId(id)
    ensures ReadWatermark(AfterWrite(file, id, Written), true) == Some(id)
  {
    StripKeepsClean(id);
  }

  /** A save whose `open` failed changes nothing; one that failed after the
      truncation leaves a prefix of the identifier, and with nothing kept the
      next read returns the empty string. */
  lemma FailedWrites(file: Option<string>, id: string, kept: nat)
    ensures AfterWrite(file, id, OpenFailed) == file
    ensures AfterWrite(file, id, Truncated(kept)).Some?
    ensures AfterWrite(file, id, Truncated(kept)).value == id[..|AfterWrite(file, id, Truncated(kept)).value|]
    ensures ReadWatermark(AfterWrite(file, id, Truncated(0)), true) == Some("")
  {
  }
}
