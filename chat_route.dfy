/**
 The chat route: the in-memory session store and one chat turn, which runs
 the agent on the stored history, replaces that history with the agent's
 full message list, and hands the same list to the evaluation trigger.
 */
module ChatRoute {
  import opened Common
  import opened Messages
  import opened LedgerStore
  import opened Evaluation
  import opened EvaluationsRoute

  datatype ChatRequest = ChatRequest(message: string, sessionId: string)
  datatype ChatResponse = ChatResponse(response: string, sessionId: string)

  /** What an agent run yields: its final output and the whole history,
      earlier messages included. */
  datatype AgentRun = AgentRun(output: string, allMessages: seq<Message>)

  /** The process-wide map from session id to message history. */
  class SessionStore {
    var sessions: map<string, seq<Message>>

    constructor ()
      ensures sessions == map[]
    {
      sessions := map[];
    }

    /** The stored history; an unknown session has an empty one. */
    function History(sessionId: string): (h: seq<Message>)
      reads this
      ensures sessionId !in sessions ==> h == []
    {
      if sessionId in sessions then sessions[sessionId] else []
    }

    /** One turn. `agent` stands for the agent run (None: it raised, and the
        exception propagates out of the route). The returned job is what the
        trigger schedules. */
    method Chat(request: ChatRequest, agent: (string, seq<Message>) -> Option<AgentRun>)
      returns (response: Option<ChatResponse>, job: Option<Job>)
      modifies this
      ensures var run := agent(request.message, old(History(request.sessionId)));
              if run.None? then
                response.None? && job.None? && sessions == old(sessions)
              else
                && sessions == old(sessions)[request.sessionId := run.value.allMessages]
                && job == Scheduled(request.sessionId, sessions[request.sessionId])
                && response == Some(ChatResponse(run.value.output, request.sessionId))
      ensures forall sid :: sid != request.sessionId ==> History(sid) == old(History(sid))
    {
      var history := if request.sessionId in sessions then sessions[request.sessionId] else [];
      var result := agent(request.message, history);
      if result.None? {
        return None, None;
      }
      var allMessages := result.value.allMessages;
      sessions := sessions[request.sessionId := allMessages];
      job := MaybeTriggerEvaluation(request.sessionId, allMessages);
      response := Some(ChatResponse(result.value.output, request.sessionId));
    }
  }

  /** The history of a turn that read one story through an HN tool. */
  function HackerNewsHistory(): seq<Message>
  {
    [Request([PromptPart("What is on Hacker News?")]),
     Response([ToolCallPart("search_hackernews")]),
     Request([ToolReturnPart("search_hackernews", StrContent("Item A..."))]),
     Response([TextPart("Top story is...")])]
  }

  /** The history of a turn that used only a web-search tool. */
  function WebSearchHistory(): seq<Message>
  {
    [Request([PromptPart("Any news?")]),
     Response([ToolCallPart("web_search")]),
     Request([ToolReturnPart("web_search", StrContent("Result B..."))]),
     Response([TextPart("Here is the news...")])]
  }

  lemma HackerNewsHistoryScheduled()
    ensures Scheduled("s1", HackerNewsHistory()) == Some(Job("s1", ["Item A..."], "Top story is..."))
  {
    var h := HackerNewsHistory();
    HackerNewsHistoryEvidence();
    assert HasText(h[3]);
  }

  lemma HackerNewsHistoryEvidence()
    ensures HnData(HackerNewsHistory()) == ["Item A..."]
  {
    var h := HackerNewsHistory();
    HnToolReturnEvidence(h[2].parts);
    assert h[0].parts[..0] == [];
    assert PartsEvidence(h[0].parts) == [];
    assert [h[0]][..0] == [];
    assert HnData([h[0]]) == [];
    assert h[..2][..1] == [h[0]];
    assert HnData(h[..2]) == [];
    assert h[..3][..2] == h[..2];
  }

  lemma HnToolReturnEvidence(parts: seq<Part>)
    requires parts == [ToolReturnPart("search_hackernews", StrContent("Item A..."))]
    ensures PartsEvidence(parts) == ["Item A..."]
  {
    JohnIsAnHnTool();
    assert Qualifies(parts[0]);
    assert parts[..0] == [];
  }

  lemma WebSearchHistoryNotScheduled()
    ensures Scheduled("s2", WebSearchHistory()) == None
  {
    var h := WebSearchHistory();
    WebSearchIsNotAnHnTool();
    assert !Qualifies(h[2].parts[0]);
    forall i, j ensures !QualifyingAt(h, i, j) {
    }
    NoEvidenceNoEvaluation("s2", h);
  }

  /** A turn that used an HN tool: the judgment is scheduled, and once it has
      run the read route returns its verdict. */
  method HackerNewsTurn(now: string) returns (read: ReadResult)
    ensures read == Found(Entry("s1", 82, "Accurate and concise.", now))
  {
    var store := new SessionStore();
    var dir := new EvaluationsDir();
    var agent := (message: string, prior: seq<Message>) =>
      Some(AgentRun("Top story is...", prior + HackerNewsHistory()));
    assert store.History("s1") == [];
    var noHistory: seq<Message> := [];
    assert noHistory + HackerNewsHistory() == HackerNewsHistory();
    assert agent("What is on Hacker News?", noHistory) == Some(AgentRun("Top story is...", HackerNewsHistory()));
    var response, job := store.Chat(ChatRequest("What is on Hacker News?", "s1"), agent);
    HackerNewsHistoryScheduled();
    assert job == Some(Job("s1", ["Item A..."], "Top story is..."));
    var judge := (prompt: string) => Some(Score(82, "Accurate and concise."));
    assert Lookup(dir.files, "s1") == None;
    var outcome := RunEvaluation(dir, job.value.sessionId, job.value.hnData, job.value.summary, judge, now);
    read := GetEvaluationRoute(dir, "s1");
  }

  /** A turn that used only web search: nothing is scheduled and the read
      route finds no evaluation. */
  method WebSearchTurn() returns (read: ReadResult)
    ensures read == NotFound
  {
    var store := new SessionStore();
    var dir := new EvaluationsDir();
    var agent := (message: string, prior: seq<Message>) =>
      Some(AgentRun("Here is the news...", prior + WebSearchHistory()));
    assert store.History("s2") == [];
    var noHistory: seq<Message> := [];
    assert noHistory + WebSearchHistory() == WebSearchHistory();
    assert agent("Any news?", noHistory) == Some(AgentRun("Here is the news...", WebSearchHistory()));
    var response, job := store.Chat(ChatRequest("Any news?", "s2"), agent);
    WebSearchHistoryNotScheduled();
    assert job.None?;
    read := GetEvaluationRoute(dir, "s2");
  }
}
