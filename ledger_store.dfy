/**
 The evaluations directory: one JSON file per session id, holding the list
 of evaluation entries written for that session. A file is seen through what
 `json.loads` makes of it.
 */
module LedgerStore {
  import opened Common

  /** One evaluation record, as written by the judge pipeline. */
  datatype Entry = Entry(sessionId: string, score: int, reasoning: string, timestamp: string)

  /** The content of an existing ledger file:
      - Unparseable: `json.loads` raises (not JSON, or not valid UTF-8);
      - NonList: valid JSON that is not an array; `falsy` records whether Python
        treats the value as false (null, false, 0, "", {});
      - Entries: a JSON array of entries. */
  datatype LedgerFile = Unparseable | NonList(falsy: bool) | Entries(entries: seq<Entry>)

  /** The file for a session, or None when no such file exists. */
  function Lookup(files: map<string, LedgerFile>, sessionId: string): Option<LedgerFile>
  {
    if sessionId in files then Some(files[sessionId]) else None
  }

  /** The directory itself, shared by the writer and the read route. */
  class EvaluationsDir {
    var files: map<string, LedgerFile>

    constructor ()
      ensures files == map[]
    {
      files := map[];
    }
  }
}
