/**
 The post-response evaluation pipeline: evidence extraction from a message
 history, the decision whether to schedule a judgment, the judge prompt, and
 the read-modify-append of the session's ledger file.
 */
module Evaluation {
  import opened Common
  import opened Messages
  import opened LedgerStore

  // ---------------------------------------------------------------------
  // Evidence: the HN tool returns of a history
  // ---------------------------------------------------------------------

  /** The evidence one list of parts contributes, in order. */
  function PartsEvidence(parts: seq<Part>): seq<string>
  {
    if parts == [] then []
    else
      var last := parts[|parts| - 1];
      PartsEvidence(parts[..|parts| - 1]) + (if Qualifies(last) then [AsText(last.content)] else [])
  }

  /** Only requests carry tool returns that count. */
  function MessageEvidence(m: Message): seq<string>
  {
    if m.Request? then PartsEvidence(m.parts) else []
  }

  /** The evidence a whole history contributes, in history order. */
  function HnData(ms: seq<Message>): seq<string>
  {
    if ms == [] then [] else HnData(ms[..|ms| - 1]) + MessageEvidence(ms[|ms| - 1])
  }

  /** Part `j` of message `i` is a qualifying tool return of a request. */
  ghost predicate QualifyingAt(ms: seq<Message>, i: int, j: int)
  {
    0 <= i < |ms| && ms[i].Request? && 0 <= j < |ms[i].parts| && Qualifies(ms[i].parts[j])
  }

  /** The extractor: nested loops over messages and parts, appending the
      content of every qualifying tool return. */
  method ExtractHnToolData(messages: seq<Message>) returns (hnData: seq<string>)
    ensures hnData == HnData(messages)
  {
    hnData := [];
    for i := 0 to |messages|
      invariant hnData == HnData(messages[..i])
    {
      var msg := messages[i];
      if msg.Request? {
        for j := 0 to |msg.parts|
          invariant hnData == HnData(messages[..i]) + PartsEvidence(msg.parts[..j])
        {
          var part := msg.parts[j];
          if part.ToolReturnPart? && IsHnToolName(part.toolName) {
            hnData := hnData + [AsText(part.content)];
          }
          assert msg.parts[..j + 1][..j] == msg.parts[..j];
        }
        assert msg.parts[..|msg.parts|] == msg.parts;
      }
      assert messages[..i + 1][..i] == messages[..i];
    }
    assert messages[..|messages|] == messages;
  }

  lemma {:induction false} PartsEvidenceAppend(a: seq<Part>, b: seq<Part>)
    ensures PartsEvidence(a + b) == PartsEvidence(a) + PartsEvidence(b)
    decreases |b|
  {
    if b != [] {
      var b' := b[..|b| - 1];
      assert (a + b)[..|a + b| - 1] == a + b';
      PartsEvidenceAppend(a, b');
    } else {
      assert a + b == a;
    }
  }

  /** Evidence of a concatenated history is the concatenation of the
      evidence: earlier messages' contents come first. */
  lemma {:induction false} HnDataAppend(a: seq<Message>, b: seq<Message>)
    ensures HnData(a + b) == HnData(a) + HnData(b)
    decreases |b|
  {
    if b != [] {
      var b' := b[..|b| - 1];
      assert (a + b)[..|a + b| - 1] == a + b';
      HnDataAppend(a, b');
    } else {
      assert a + b == a;
    }
  }

  /** A response, wherever it stands in the history, contributes nothing. */
  lemma ResponsesContributeNothing(a: seq<Message>, parts: seq<Part>, b: seq<Message>)
    ensures HnData(a + [Response(parts)] + b) == HnData(a + b)
  {
    var x := a + [Response(parts)];
    assert x[..|x| - 1] == a;
    assert HnData(x) == HnData(a);
    HnDataAppend(x, b);
    HnDataAppend(a, b);
  }

  /** A part that is not a qualifying tool return contributes nothing. */
  lemma NonQualifyingPartsContributeNothing(a: seq<Part>, p: Part, b: seq<Part>)
    requires !Qualifies(p)
    ensures PartsEvidence(a + [p] + b) == PartsEvidence(a + b)
  {
    var x := a + [p];
    assert x[..|x| - 1] == a;
    assert PartsEvidence(x) == PartsEvidence(a);
    PartsEvidenceAppend(x, b);
    PartsEvidenceAppend(a, b);
  }

  /** Some qualifying part of `parts` has content `s`. */
  ghost predicate InParts(parts: seq<Part>, s: string)
  {
    exists j :: 0 <= j < |parts| && Qualifies(parts[j]) && AsText(parts[j].content) == s
  }

  /** Part `j` of message `i` is a qualifying tool return with content `s`. */
  ghost predicate ProducedAt(ms: seq<Message>, i: int, j: int, s: string)
  {
    QualifyingAt(ms, i, j) && AsText(ms[i].parts[j].content) == s
  }

  lemma {:induction false} PartsEvidenceMembership(parts: seq<Part>, s: string)
    ensures s in PartsEvidence(parts) <==> InParts(parts, s)
    decreases |parts|
  {
    if parts != [] {
      var init := parts[..|parts| - 1];
      var k := |parts| - 1;
      assert PartsEvidence(parts) ==
             PartsEvidence(init) + (if Qualifies(parts[k]) then [AsText(parts[k].content)] else []);
      PartsEvidenceMembership(init, s);
      if s in PartsEvidence(parts) && s !in PartsEvidence(init) {
        assert Qualifies(parts[k]) && AsText(parts[k].content) == s;
      }
      if InParts(parts, s) {
        var j :| 0 <= j < |parts| && Qualifies(parts[j]) && AsText(parts[j].content) == s;
        if j < k {
          assert init[j] == parts[j];
          assert InParts(init, s);
        }
      }
    }
  }

  /** The evidence holds exactly the contents of the qualifying tool returns
      of requests: every element comes from one, and every one is there. */
  lemma {:induction false} HnDataMembership(ms: seq<Message>, s: string)
    ensures s in HnData(ms) <==> exists i, j :: ProducedAt(ms, i, j, s)
    decreases |ms|
  {
    if ms != [] {
      var init := ms[..|ms| - 1];
      var k := |ms| - 1;
      var m := ms[k];
      assert HnData(ms) == HnData(init) + MessageEvidence(m);
      HnDataMembership(init, s);
      if s in HnData(ms) {
        if s in HnData(init) {
          var i, j :| ProducedAt(init, i, j, s);
          assert ms[i] == init[i];
          assert ProducedAt(ms, i, j, s);
        } else {
          assert m.Request? && s in PartsEvidence(m.parts);
          PartsEvidenceMembership(m.parts, s);
          var j :| 0 <= j < |m.parts| && Qualifies(m.parts[j]) && AsText(m.parts[j].content) == s;
          assert ProducedAt(ms, k, j, s);
        }
      }
      if exists i, j :: ProducedAt(ms, i, j, s) {
        var i, j :| ProducedAt(ms, i, j, s);
        if i < k {
          assert ms[i] == init[i];
          assert ProducedAt(init, i, j, s);
        } else {
          assert InParts(m.parts, s);
          PartsEvidenceMembership(m.parts, s);
        }
      }
    }
  }

  /** No evidence at all exactly when no request carries a qualifying tool return. */
  lemma EvidenceEmptyIff(ms: seq<Message>)
    ensures HnData(ms) == [] <==> forall i, j :: !QualifyingAt(ms, i, j)
  {
    if HnData(ms) != [] {
      HnDataMembership(ms, HnData(ms)[0]);
      var i, j :| ProducedAt(ms, i, j, HnData(ms)[0]);
      assert QualifyingAt(ms, i, j);
    }
    if exists i, j :: QualifyingAt(ms, i, j) {
      var i, j :| QualifyingAt(ms, i, j);
      var s := AsText(ms[i].parts[j].content);
      assert ProducedAt(ms, i, j, s);
      HnDataMembership(ms, s);
    }
  }

  /** Number of qualifying tool returns in a list of parts. */
  function CountQualifying(parts: seq<Part>): nat
  {
    if parts == [] then 0 else (if Qualifies(parts[0]) then 1 else 0) + CountQualifying(parts[1..])
  }

  /** Number of qualifying tool returns in the requests of a history. */
  function CountEvidence(ms: seq<Message>): nat
  {
    if ms == [] then 0
    else (if ms[0].Request? then CountQualifying(ms[0].parts) else 0) + CountEvidence(ms[1..])
  }

  lemma {:induction false} PartsEvidenceLength(parts: seq<Part>)
    ensures |PartsEvidence(parts)| == CountQualifying(parts)
    decreases |parts|
  {
    if parts != [] {
      PartsEvidenceLength(parts[1..]);
      PartsEvidenceAppend([parts[0]], parts[1..]);
      assert [parts[0]] + parts[1..] == parts;
      assert [parts[0]][..0] == [];
    }
  }

  /** One evidence string per qualifying tool return. */
  lemma {:induction false} HnDataLength(ms: seq<Message>)
    ensures |HnData(ms)| == CountEvidence(ms)
    decreases |ms|
  {
    if ms != [] {
      HnDataLength(ms[1..]);
      HnDataAppend([ms[0]], ms[1..]);
      assert [ms[0]] + ms[1..] == ms;
      assert [ms[0]][..0] == [];
      if ms[0].Request? {
        PartsEvidenceLength(ms[0].parts);
      }
    }
  }

  // ---------------------------------------------------------------------
  // Summary: the first text part of the latest response that has one
  // ---------------------------------------------------------------------

  /** The first text part of a list of parts, if any. */
  function FirstText(parts: seq<Part>): (r: Option<string>)
    ensures r.None? <==> forall k :: 0 <= k < |parts| ==> !parts[k].TextPart?
    ensures r.Some? ==> exists k :: 0 <= k < |parts| && parts[k] == TextPart(r.value) &&
                                    forall j :: 0 <= j < k ==> !parts[j].TextPart?
  {
    if parts == [] then None
    else if parts[0].TextPart? then Some(parts[0].text)
    else
      var r := FirstText(parts[1..]);
      assert forall k :: 1 <= k < |parts| ==> parts[k] == parts[1..][k - 1];
      assert r.Some? ==> exists k :: 0 <= k < |parts| && parts[k] == TextPart(r.value) &&
                                     forall j :: 0 <= j < k ==> !parts[j].TextPart? by {
        if r.Some? {
          var k :| 0 <= k < |parts[1..]| && parts[1..][k] == TextPart(r.value) &&
                   forall j :: 0 <= j < k ==> !parts[1..][j].TextPart?;
          assert parts[k + 1] == TextPart(r.value);
        }
      }
      r
  }

  /** A response that holds at least one text part. */
  predicate HasText(m: Message)
  {
    m.Response? && FirstText(m.parts).Some?
  }

  /** The reverse scan: the first text of the latest response that has text,
      skipping responses made only of tool calls; None when no response has text. */
  function ExtractSummary(ms: seq<Message>): (r: Option<string>)
    ensures r.None? <==> forall i :: 0 <= i < |ms| ==> !HasText(ms[i])
  {
    if ms == [] then None
    else if HasText(ms[|ms| - 1]) then FirstText(ms[|ms| - 1].parts)
    else
      var r := ExtractSummary(ms[..|ms| - 1]);
      assert forall i :: 0 <= i < |ms| - 1 ==> ms[i] == ms[..|ms| - 1][i];
      r
  }

  /** The summary is the first text of the latest response that has text:
      responses after it, made only of tool calls, are skipped. */
  lemma {:induction false} SummaryIsLatestText(ms: seq<Message>, k: int)
    requires 0 <= k < |ms| && HasText(ms[k])
    requires forall l :: k < l < |ms| ==> !HasText(ms[l])
    ensures ExtractSummary(ms) == FirstText(ms[k].parts)
  {
    if k < |ms| - 1 {
      var init := ms[..|ms| - 1];
      assert !HasText(ms[|ms| - 1]);
      assert init[k] == ms[k];
      forall l | k < l < |init| ensures !HasText(init[l]) {
        assert init[l] == ms[l];
      }
      SummaryIsLatestText(init, k);
    }
  }

  /** A final response made only of tool calls does not hide an earlier text. */
  lemma SummarySkipsToolCallResponses(t: string)
    ensures ExtractSummary([Request([PromptPart("q")]), Response([TextPart(t)]),
                            Request([PromptPart("go on")]), Response([ToolCallPart("search")])])
            == Some(t)
  {
    var ms := [Request([PromptPart("q")]), Response([TextPart(t)]),
               Request([PromptPart("go on")]), Response([ToolCallPart("search")])];
    assert HasText(ms[1]) && !HasText(ms[2]) && !HasText(ms[3]);
    SummaryIsLatestText(ms, 1);
    assert FirstText(ms[1].parts) == Some(t);
  }

  // ---------------------------------------------------------------------
  // Trigger
  // ---------------------------------------------------------------------

  /** A judgment to run in the background. */
  datatype Job = Job(sessionId: string, hnData: seq<string>, summary: string)

  /** What the trigger schedules for a history: nothing without evidence,
      nothing without a non-empty summary, otherwise one job. */
  function Scheduled(sessionId: string, ms: seq<Message>): (job: Option<Job>)
    ensures job.Some? ==> job.value.sessionId == sessionId && job.value.hnData != [] && job.value.summary != ""
  {
    var hnData := HnData(ms);
    if hnData == [] then None
    else
      match ExtractSummary(ms)
      case None => None
      case Some(summary) => if summary == "" then None else Some(Job(sessionId, hnData, summary))
  }

  method MaybeTriggerEvaluation(sessionId: string, messages: seq<Message>) returns (job: Option<Job>)
    ensures job == Scheduled(sessionId, messages)
  {
    var hnData := ExtractHnToolData(messages);
    if hnData == [] {
      return None;
    }
    var summary := ExtractSummary(messages);
    if summary.None? || summary.value == "" {
      return None;
    }
    job := Some(Job(sessionId, hnData, summary.value));
  }

  /** Without a qualifying tool return nothing is scheduled. */
  lemma NoEvidenceNoEvaluation(sessionId: string, ms: seq<Message>)
    requires forall i, j :: !QualifyingAt(ms, i, j)
    ensures Scheduled(sessionId, ms) == None
  {
    EvidenceEmptyIff(ms);
  }

  /** Without any response text nothing is scheduled. */
  lemma NoSummaryNoEvaluation(sessionId: string, ms: seq<Message>)
    requires forall i :: 0 <= i < |ms| ==> !HasText(ms[i])
    ensures Scheduled(sessionId, ms) == None
  {
  }

  /** A latest response text that is empty stops the scan and is falsy, so
      nothing is scheduled even with evidence and earlier non-empty texts. */
  lemma EmptySummaryNoEvaluation(sessionId: string, ms: seq<Message>, k: int)
    requires 0 <= k < |ms| && HasText(ms[k]) && FirstText(ms[k].parts).value == ""
    requires forall l :: k < l < |ms| ==> !HasText(ms[l])
    ensures Scheduled(sessionId, ms) == None
  {
    SummaryIsLatestText(ms, k);
  }

  /** With a qualifying tool return and a latest response text that is not
      empty, exactly one job is scheduled, carrying the session id, all the
      evidence and that text. */
  lemma EvaluationScheduled(sessionId: string, ms: seq<Message>, i: int, j: int, k: int)
    requires QualifyingAt(ms, i, j)
    requires 0 <= k < |ms| && HasText(ms[k]) && FirstText(ms[k].parts).value != ""
    requires forall l :: k < l < |ms| ==> !HasText(ms[l])
    ensures Scheduled(sessionId, ms) == Some(Job(sessionId, HnData(ms), FirstText(ms[k].parts).value))
  {
    EvidenceEmptyIff(ms);
    SummaryIsLatestText(ms, k);
  }

  // ---------------------------------------------------------------------
  // Judge prompt
  // ---------------------------------------------------------------------

  const EvidenceSeparator := "\n\n---\n\n"
  const SourceHeading := "## Source Data\n"
  const SummaryHeading := "\n\n## Summary\n"

  /** Python's `sep.join(xs)`. */
  function Join(xs: seq<string>, sep: string): (r: string)
    ensures |xs| == 0 ==> r == ""
  {
    if |xs| == 0 then "" else if |xs| == 1 then xs[0] else xs[0] + sep + Join(xs[1..], sep)
  }

  /** Where block `k` starts in `Join(xs, sep)`. */
  function Offset(xs: seq<string>, sep: string, k: nat): nat
    requires k <= |xs|
  {
    if k == 0 then 0 else |xs[0]| + |sep| + Offset(xs[1..], sep, k - 1)
  }

  /** The joined text is as long as the blocks plus one separator between
      each two, that is, one separator short of the offset past the last block. */
  lemma {:induction false} JoinLength(xs: seq<string>, sep: string)
    requires |xs| > 0
    ensures |Join(xs, sep)| + |sep| == Offset(xs, sep, |xs|)
    decreases |xs|
  {
    if |xs| > 1 {
      JoinLength(xs[1..], sep);
    }
  }

  /** Consecutive offsets are one block and one separator apart. */
  lemma {:induction false} OffsetStep(xs: seq<string>, sep: string, k: nat)
    requires k < |xs|
    ensures Offset(xs, sep, k + 1) == Offset(xs, sep, k) + |xs[k]| + |sep|
    decreases k
  {
    if k > 0 {
      OffsetStep(xs[1..], sep, k - 1);
      assert xs[1..][k - 1] == xs[k];
    }
  }

  /** Block `k` stands verbatim at its offset in the joined text. */
  lemma {:induction false} JoinBlock(xs: seq<string>, sep: string, k: nat)
    requires k < |xs|
    ensures Offset(xs, sep, k) + |xs[k]| <= |Join(xs, sep)|
    ensures Join(xs, sep)[Offset(xs, sep, k)..Offset(xs, sep, k) + |xs[k]|] == xs[k]
    decreases |xs|
  {
    if |xs| == 1 {
      SliceAll(xs[0]);
    } else {
      var rest := Join(xs[1..], sep);
      if k == 0 {
        SliceLeft(xs[0] + sep, rest, 0, |xs[0]|);
        SliceLeft(xs[0], sep, 0, |xs[0]|);
        SliceAll(xs[0]);
      } else {
        JoinBlock(xs[1..], sep, k - 1);
        var o := Offset(xs[1..], sep, k - 1);
        assert xs[1..][k - 1] == xs[k];
        SliceRight(xs[0] + sep, rest, |xs[0] + sep| + o, |xs[0] + sep| + o + |xs[k]|);
      }
    }
  }

  /** Every block but the last is followed by the separator. */
  lemma {:induction false} JoinSeparator(xs: seq<string>, sep: string, k: nat)
    requires k + 1 < |xs|
    ensures Offset(xs, sep, k) + |xs[k]| + |sep| <= |Join(xs, sep)|
    ensures Join(xs, sep)[Offset(xs, sep, k) + |xs[k]|..Offset(xs, sep, k) + |xs[k]| + |sep|] == sep
    decreases |xs|
  {
    var rest := Join(xs[1..], sep);
    if k == 0 {
      SliceLeft(xs[0] + sep, rest, |xs[0]|, |xs[0]| + |sep|);
      SliceRight(xs[0], sep, |xs[0]|, |xs[0]| + |sep|);
      SliceAll(sep);
    } else {
      JoinSeparator(xs[1..], sep, k - 1);
      assert xs[1..][k - 1] == xs[k];
      var e := Offset(xs[1..], sep, k - 1) + |xs[k]|;
      assert Offset(xs, sep, k) + |xs[k]| == |xs[0] + sep| + e;
      SliceOfBack(Join(xs, sep), xs[0] + sep, rest, e, |sep|, sep);
    }
  }

  /** The joined text is the blocks, in order, each verbatim at its offset,
      each but the last followed by the separator, the last ending the text. */
  lemma JoinLayout(xs: seq<string>, sep: string, k: nat)
    requires k < |xs|
    ensures Offset(xs, sep, k) + |xs[k]| <= |Join(xs, sep)|
    ensures Join(xs, sep)[Offset(xs, sep, k)..Offset(xs, sep, k) + |xs[k]|] == xs[k]
    ensures k + 1 == |xs| ==> Offset(xs, sep, k) + |xs[k]| == |Join(xs, sep)|
    ensures k + 1 < |xs| ==> Offset(xs, sep, k) + |xs[k]| + |sep| <= |Join(xs, sep)|
    ensures k + 1 < |xs| ==>
              Join(xs, sep)[Offset(xs, sep, k) + |xs[k]|..Offset(xs, sep, k) + |xs[k]| + |sep|] == sep
  {
    JoinBlock(xs, sep, k);
    if k + 1 < |xs| {
      JoinSeparator(xs, sep, k);
    } else {
      OffsetStep(xs, sep, k);
      JoinLength(xs, sep);
    }
  }

  /** The prompt the judge receives. */
  function BuildPrompt(hnData: seq<string>, summary: string): (r: string)
    ensures |SourceHeading| + |SummaryHeading| + |summary| <= |r|
    ensures r[..|SourceHeading|] == SourceHeading
    ensures r[|r| - |SummaryHeading + summary|..] == SummaryHeading + summary
    ensures hnData == [] ==> r == SourceHeading + SummaryHeading + summary
  {
    SourceHeading + Join(hnData, EvidenceSeparator) + (SummaryHeading + summary)
  }

  /** The prompt opens with the source heading, embeds every evidence block
      verbatim at its place, and ends with the summary heading and the summary. */
  lemma PromptLayout(hnData: seq<string>, summary: string, k: nat)
    requires k < |hnData|
    ensures BuildPrompt(hnData, summary)[..|SourceHeading|] == SourceHeading
    ensures |SourceHeading| + Offset(hnData, EvidenceSeparator, k) + |hnData[k]|
            <= |BuildPrompt(hnData, summary)|
    ensures BuildPrompt(hnData, summary)[|SourceHeading| + Offset(hnData, EvidenceSeparator, k)..
                                         |SourceHeading| + Offset(hnData, EvidenceSeparator, k) + |hnData[k]|]
            == hnData[k]
    ensures BuildPrompt(hnData, summary)[|BuildPrompt(hnData, summary)| - |SummaryHeading + summary|..]
            == SummaryHeading + summary
  {
    Framed(SourceHeading, hnData, EvidenceSeparator, SummaryHeading + summary, k);
  }

  /** `Framed` is `PromptLayout` for any heading and tail. */
  lemma Framed(head: string, xs: seq<string>, sep: string, tail: string, k: nat)
    requires k < |xs|
    ensures (head + Join(xs, sep) + tail)[..|head|] == head
    ensures |head| + Offset(xs, sep, k) + |xs[k]| <= |head + Join(xs, sep) + tail|
    ensures (head + Join(xs, sep) + tail)[|head| + Offset(xs, sep, k)..|head| + Offset(xs, sep, k) + |xs[k]|]
            == xs[k]
    ensures (head + Join(xs, sep) + tail)[|head + Join(xs, sep) + tail| - |tail|..] == tail
  {
    JoinLayout(xs, sep, k);
    Framing(head, Join(xs, sep), tail, Offset(xs, sep, k), |xs[k]|);
  }

  // ---------------------------------------------------------------------
  // Ledger write
  // ---------------------------------------------------------------------

  /** The judge's structured output. */
  datatype Score = Score(score: int, reasoning: string)

  /** The list written back for a session, or None when `append` raises
      because the existing file holds a JSON value that is not a list. */
  function AppendEntry(file: Option<LedgerFile>, e: Entry): (r: Option<seq<Entry>>)
    ensures r.None? <==> file.Some? && file.value.NonList?
    ensures r.Some? ==> |r.value| > 0 && r.value[|r.value| - 1] == e
    ensures file.Some? && file.value.Entries? ==>
              var es := file.value.entries;
              r.Some? && |r.value| == |es| + 1 && r.value[..|es|] == es
    ensures file.None? || file == Some(Unparseable) ==> r == Some([e])
  {
    match file
    case None => Some([e])
    case Some(Unparseable) => Some([e])
    case Some(NonList(_)) => None
    case Some(Entries(es)) => Some(es + [e])
  }

  /** How a background evaluation ended. Failures are swallowed: nothing
      reaches the chat response. */
  datatype RunOutcome = Stored(entry: Entry) | JudgeFailed | AppendFailed

  /** Builds the prompt, asks the judge, and on success appends the new
      entry to the session's ledger file; any failure leaves the directory
      as it was. `now` is the UTC timestamp of the write, in ISO-8601. */
  method RunEvaluation(dir: EvaluationsDir, sessionId: string, hnData: seq<string>, summary: string,
                       judge: string -> Option<Score>, now: string) returns (outcome: RunOutcome)
    modifies dir
    ensures var verdict := judge(BuildPrompt(hnData, summary));
            if verdict.None? then
              outcome == JudgeFailed && dir.files == old(dir.files)
            else
              var e := Entry(sessionId, verdict.value.score, verdict.value.reasoning, now);
              match AppendEntry(Lookup(old(dir.files), sessionId), e)
              case None => outcome == AppendFailed && dir.files == old(dir.files)
              case Some(es) => outcome == Stored(e) && dir.files == old(dir.files)[sessionId := Entries(es)]
  {
    var prompt := BuildPrompt(hnData, summary);
    var verdict := judge(prompt);
    if verdict.None? {
      return JudgeFailed;
    }
    var score := verdict.value;
    var entry := Entry(sessionId, score.score, score.reasoning, now);
    var existing: seq<Entry> := [];
    if sessionId in dir.files {
      match dir.files[sessionId]
      case Unparseable =>
        existing := [];
      case NonList(_) =>
        return AppendFailed;
      case Entries(es) =>
        existing := es;
    }
    existing := existing + [entry];
    assert sessionId !in dir.files ==> existing == [entry];
    assert sessionId !in dir.files ==> Lookup(dir.files, sessionId) == None;
    assert sessionId in dir.files && dir.files[sessionId].Entries? ==> existing == dir.files[sessionId].entries + [entry];
    assert sessionId in dir.files && dir.files[sessionId].Unparseable? ==> existing == [entry];
    assert AppendEntry(Lookup(dir.files, sessionId), entry) == Some(existing);
    dir.files := dir.files[sessionId := Entries(existing)];
    outcome := Stored(entry);
  }
}
