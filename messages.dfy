/**
 The message history an agent run produces: an ordered list of requests
 (what is sent to the model, including tool results) and responses (what the
 model answers, including tool calls). The evaluation pipeline only reads it.
 */
module Messages {

  /** The payload of a tool return. A string is kept as it is; any other value
      is carried together with the text Python's `str()` gives for it. */
  datatype Content = StrContent(text: string) | ObjectContent(rendered: string)

  datatype Part =
    | TextPart(text: string)                             // free text written by the model
    | ToolCallPart(toolName: string)                     // the model asking for a tool
    | ToolReturnPart(toolName: string, content: Content) // a tool's answer, sent back in a request
    | PromptPart(text: string)                           // user, system or retry prompt

  datatype Message = Request(parts: seq<Part>) | Response(parts: seq<Part>)

  /** A tool payload as the evidence list stores it: verbatim when it is a
      string, otherwise its `str()` rendering. */
  function AsText(c: Content): string
  {
    match c
    case StrContent(t) => t
    case ObjectContent(r) => r
  }

  /** `str.lower` on one character, as far as it can matter for the ASCII
      needles below: ASCII capitals, and the Kelvin sign, which lowers to 'k'. */
  function LowerChar(c: char): char
  {
    if 'A' <= c <= 'Z' then (c as int + 32) as char
    else if c == '\U{212A}' then 'k'
    else c
  }

  /** The model's `str.lower`: character by character, so the result holds
      no ASCII capital and lowering it again leaves every character as it is. */
  function Lower(s: string): (r: string)
    ensures |r| == |s|
    ensures forall i :: 0 <= i < |s| ==> r[i] == LowerChar(s[i])
    ensures forall i :: 0 <= i < |r| ==> !('A' <= r[i] <= 'Z')
    ensures forall i :: 0 <= i < |r| ==> LowerChar(r[i]) == r[i]
  {
    seq(|s|, i requires 0 <= i < |s| => LowerChar(s[i]))
  }

  /** Lowering is idempotent. */
  lemma LowerIdempotent(s: string)
    ensures Lower(Lower(s)) == Lower(s)
  {
    var l := Lower(s);
    assert forall i :: 0 <= i < |l| ==> Lower(l)[i] == l[i];
  }

  /** Two characters that are equal, or are the two cases of one ASCII letter. */
  predicate SameUpToCase(c: char, d: char)
  {
    c == d ||
    ('A' <= c <= 'Z' && 'a' <= d <= 'z' && d as int - c as int == 32) ||
    ('a' <= c <= 'z' && 'A' <= d <= 'Z' && c as int - d as int == 32)
  }

  /** Names that differ only in the case of ASCII letters lower to the same
      string, so the filter treats them alike. */
  lemma CaseBlind(a: string, b: string)
    requires |a| == |b|
    requires forall i :: 0 <= i < |a| ==> SameUpToCase(a[i], b[i])
    ensures Lower(a) == Lower(b)
    ensures IsHnToolName(a) <==> IsHnToolName(b)
  {
    forall i | 0 <= i < |a| ensures Lower(a)[i] == Lower(b)[i] {
      assert SameUpToCase(a[i], b[i]);
    }
  }

  /** Python's `needle in s` on strings. */
  predicate Contains(s: string, needle: string)
  {
    exists i :: 0 <= i <= |s| - |needle| && needle <= s[i..]
  }

  /** The topic filter of the evidence extractor: the lowercased tool name
      contains "hackernews" or "hn". */
  predicate IsHnToolName(name: string)
    ensures IsHnToolName(name) ==> |name| >= 2
    ensures Contains(name, "hackernews") || Contains(name, "hn") ==> IsHnToolName(name)
  {
    LowerKeeps(name, "hackernews");
    LowerKeeps(name, "hn");
    Contains(Lower(name), "hackernews") || Contains(Lower(name), "hn")
  }

  /** A needle of lower-case letters found in a name is found in its
      lowercased form at the same place. */
  lemma LowerKeeps(name: string, needle: string)
    requires forall k :: 0 <= k < |needle| ==> 'a' <= needle[k] <= 'z'
    ensures Contains(name, needle) ==> Contains(Lower(name), needle)
  {
    if Contains(name, needle) {
      var i :| 0 <= i <= |name| - |needle| && needle <= name[i..];
      assert needle <= Lower(name)[i..] by {
        forall k | 0 <= k < |needle| ensures Lower(name)[i..][k] == needle[k] {
          assert name[i..][k] == needle[k];
        }
      }
    }
  }

  /** A part contributes evidence when it is a tool return from an HN tool. */
  predicate Qualifies(p: Part)
  {
    p.ToolReturnPart? && IsHnToolName(p.toolName)
  }

  /** The filter is a substring test, so it is broader than the name
      suggests: "john" matches, and so does any capitalisation of "HN". */
  lemma JohnIsAnHnTool()
    ensures IsHnToolName("john")
    ensures IsHnToolName("search_HackerNews")
    ensures IsHnToolName("HN_top")
    ensures IsHnToolName("search_hackernews")
  {
    assert Lower("john")[2..] == "hn";
    assert "hn" <= Lower("john")[2..];
    var l := Lower("search_HackerNews");
    assert l == "search_hackernews";
    assert "hackernews" <= l[7..];
    assert "hn" <= Lower("HN_top")[0..];
    assert Lower("search_hackernews") == "search_hackernews";
    assert "hackernews" <= Lower("search_hackernews")[7..];
  }

  /** A plain web-search tool is not an HN tool. */
  lemma WebSearchIsNotAnHnTool()
    ensures !IsHnToolName("web_search")
  {
    assert Lower("web_search") == "web_search";
    WebSearchHasNeitherNeedle();
  }

  /** "web_search" contains neither needle. */
  lemma WebSearchHasNeitherNeedle()
    ensures !Contains("web_search", "hackernews") && !Contains("web_search", "hn")
  {
    var l := "web_search";
    forall i | 0 <= i <= |l| - 2 ensures !("hn" <= l[i..]) {
      assert l[i] != 'h' || l[i + 1] != 'n';
    }
  }
}
