/**
 The read route for evaluations: given a session id, answer with the last
 entry of its ledger file, or with the failure the route raises.
 */
module EvaluationsRoute {
  import opened Common
  import opened LedgerStore
  import opened Evaluation

  /** What the route answers. `Unhandled` is an exception the route does not
      catch, which the web framework turns into a 500 response: on a truthy
      JSON value that is not a list, `entries[-1]` raises (a number, a boolean
      or an object), or it yields a character that `EvaluationResult(**latest)`
      cannot unpack (a string). */
  datatype ReadResult = Found(result: Entry) | NotFound | Corrupted | Unhandled

  function StatusCode(r: ReadResult): int
  {
    match r
    case Found(_) => 200
    case NotFound => 404
    case Corrupted => 500
    case Unhandled => 500
  }

  /** The guard chain of the route, on the session's file (None: no file). */
  function GetEvaluation(file: Option<LedgerFile>): (r: ReadResult)
    ensures r == NotFound <==>
              file.None? || file == Some(Entries([])) || (file.value.NonList? && file.value.falsy)
    ensures r == Corrupted <==> file == Some(Unparseable)
    ensures r.Found? <==> file.Some? && file.value.Entries? && file.value.entries != []
    ensures r.Found? ==> r.result == file.value.entries[|file.value.entries| - 1]
    ensures StatusCode(r) == 500 <==>
              file == Some(Unparseable) || (file.Some? && file.value.NonList? && !file.value.falsy)
  {
    match file
    case None => NotFound
    case Some(Unparseable) => Corrupted
    case Some(NonList(falsy)) => if falsy then NotFound else Unhandled
    case Some(Entries(es)) => if es == [] then NotFound else Found(es[|es| - 1])
  }

  /** The route itself, reading the directory; it changes nothing. */
  method GetEvaluationRoute(dir: EvaluationsDir, sessionId: string) returns (r: ReadResult)
    ensures r == GetEvaluation(Lookup(dir.files, sessionId))
    ensures r.Found? ==> sessionId in dir.files && dir.files[sessionId].Entries?
  {
    if sessionId !in dir.files {
      return NotFound;
    }
    match dir.files[sessionId]
    case Unparseable =>
      r := Corrupted;
    case NonList(falsy) =>
      r := if falsy then NotFound else Unhandled;
    case Entries(entries) =>
      if entries == [] {
        return NotFound;
      }
      r := Found(entries[|entries| - 1]);
  }

  /** Writing an entry and then reading returns that entry. */
  lemma ReadAfterWrite(file: Option<LedgerFile>, e: Entry)
    requires AppendEntry(file, e).Some?
    ensures GetEvaluation(Some(Entries(AppendEntry(file, e).value))) == Found(e)
  {
  }

  /** The ledger after a series of judge verdicts, each appended in turn; an
      append that raises leaves the file as it was. */
  function LedgerAfter(file: Option<LedgerFile>, es: seq<Entry>): Option<LedgerFile>
    decreases |es|
  {
    if es == [] then file
    else
      var before := LedgerAfter(file, es[..|es| - 1]);
      match AppendEntry(before, es[|es| - 1])
      case None => before
      case Some(entries) => Some(Entries(entries))
  }

  /** The entries a writer starts from: the existing list, or none. */
  function PriorEntries(file: Option<LedgerFile>): seq<Entry>
  {
    if file.Some? && file.value.Entries? then file.value.entries else []
  }

  /** Starting from a missing, unparseable or list file, K successful
      evaluations leave the old entries followed by exactly those K, and
      the read route returns the last one written. */
  lemma {:induction false} SuccessiveEvaluations(file: Option<LedgerFile>, es: seq<Entry>)
    requires file.None? || !file.value.NonList?
    requires es != []
    ensures LedgerAfter(file, es) == Some(Entries(PriorEntries(file) + es))
    ensures GetEvaluation(LedgerAfter(file, es)) == Found(es[|es| - 1])
    decreases |es|
  {
    var init, last := es[..|es| - 1], es[|es| - 1];
    var before := LedgerAfter(file, init);
    if init == [] {
      assert before == file;
      assert PriorEntries(file) + init == PriorEntries(file);
    } else {
      SuccessiveEvaluations(file, init);
    }
    assert PriorEntries(before) == PriorEntries(file) + init;
    AppendOnto(before, last);
    LedgerAfterLast(file, es);
    SplitLast(es);
    ConcatAssoc(PriorEntries(file), init, [last]);
  }

  /** The last append of a series, when it succeeds, gives the file. */
  lemma LedgerAfterLast(file: Option<LedgerFile>, es: seq<Entry>)
    requires es != []
    requires AppendEntry(LedgerAfter(file, es[..|es| - 1]), es[|es| - 1]).Some?
    ensures LedgerAfter(file, es)
            == Some(Entries(AppendEntry(LedgerAfter(file, es[..|es| - 1]), es[|es| - 1]).value))
  {
  }

  /** Appending to a file that is missing, unparseable or a list gives the
      entries a writer starts from, followed by the new one. */
  lemma AppendOnto(file: Option<LedgerFile>, e: Entry)
    requires file.None? || !file.value.NonList?
    ensures AppendEntry(file, e) == Some(PriorEntries(file) + [e])
  {
    if file.None? || file.value.Unparseable? {
      assert PriorEntries(file) + [e] == [e];
    }
  }

  /** A file that holds a JSON value other than a list is never repaired:
      every later append raises, and reads keep answering the same way. */
  lemma {:induction false} NonListLedgerIsStuck(falsy: bool, es: seq<Entry>)
    ensures LedgerAfter(Some(NonList(falsy)), es) == Some(NonList(falsy))
    ensures GetEvaluation(LedgerAfter(Some(NonList(falsy)), es)) == (if falsy then NotFound else Unhandled)
    decreases |es|
  {
    if es != [] {
      NonListLedgerIsStuck(falsy, es[..|es| - 1]);
    }
  }

  /** One background evaluation followed by a read: a stored entry is what
      the route returns; a failed run leaves the answer unchanged. */
  method EvaluateThenRead(dir: EvaluationsDir, sessionId: string, hnData: seq<string>, summary: string,
                          judge: string -> Option<Score>, now: string)
    returns (outcome: RunOutcome, read: ReadResult)
    modifies dir
    ensures outcome.Stored? ==> read == Found(outcome.entry) && outcome.entry.sessionId == sessionId
    ensures !outcome.Stored? ==> read == GetEvaluation(Lookup(old(dir.files), sessionId))
  {
    outcome := RunEvaluation(dir, sessionId, hnData, summary, judge, now);
    read := GetEvaluationRoute(dir, sessionId);
  }
}
