/**
 The chat view's message renderer: it splits an assistant message into
 plain text and download markers `[DOWNLOAD:name.csv]`, found left to right
 with the global regular expression `/\[DOWNLOAD:([\w\-\.]+\.csv)\]/g`.
 */
module ChatMarkers {
  import opened Common
  import Downloads

  const MarkerOpen := "[DOWNLOAD:"

  /** JavaScript's `\w` without the `u` flag: ASCII letters, digits, underscore. */
  predicate IsJsWordChar(c: char)
  {
    'a' <= c <= 'z' || 'A' <= c <= 'Z' || '0' <= c <= '9' || c == '_'
  }

  /** The character class `[\w\-\.]`. */
  predicate InNameClass(c: char)
  {
    IsJsWordChar(c) || c == '-' || c == '.'
  }

  /** The four characters before index `k` spell ".csv". */
  predicate CsvBefore(s: string, k: nat)
    requires 4 <= k <= |s|
  {
    s[k - 4] == '.' && s[k - 3] == 'c' && s[k - 2] == 's' && s[k - 1] == 'v'
  }

  /** A filename the marker's capture group can hold: class characters
      only, at least one of them before ".csv". */
  predicate ValidMarkerName(f: string)
  {
    |f| >= 5 && CsvBefore(f, |f|) && forall i :: 0 <= i < |f| ==> InNameClass(f[i])
  }

  function MarkerText(f: string): string
  {
    MarkerOpen + f + "]"
  }

  /** The length of the marker for `f`: the opening literal, the name and the
      closing bracket. */
  function MarkerLength(f: string): nat
  {
    |f| + 11
  }

  /** The marker for `f` stands in `s` at index `i`. */
  predicate MarkerOccursAt(s: string, i: nat, f: string)
  {
    ValidMarkerName(f) && i + MarkerLength(f) <= |s| && s[i..i + MarkerLength(f)] == MarkerText(f)
  }

  /** The expression tried at index `i`, with `k` the next character to
      read: first the literal "[DOWNLOAD:", then the greedy `[\w\-\.]+`.
      Since ']' is not a class character, the greedy run can only give back
      characters to `\.csv\]` when the whole run ends in ".csv" and is
      followed by ']'; so the match is decided where the run stops. */
  function Scan(s: string, i: nat, k: nat): (r: Option<string>)
    requires i <= k <= |s|
    ensures r.Some? ==> i + MarkerLength(r.value) <= |s|
    decreases |s| - k
  {
    if k < i + |MarkerOpen| then
      if k < |s| && s[k] == MarkerOpen[k - i] then Scan(s, i, k + 1) else None
    else if k < |s| && InNameClass(s[k]) then Scan(s, i, k + 1)
    else if k < |s| && s[k] == ']' && k >= i + |MarkerOpen| + 5 && CsvBefore(s, k) then
      Some(s[i + |MarkerOpen|..k])
    else None
  }

  /** The filename of the marker the expression matches at index `i`, if any. */
  function MarkerAt(s: string, i: nat): (r: Option<string>)
    ensures r.Some? ==> i + MarkerLength(r.value) <= |s|
  {
    if i <= |s| then Scan(s, i, i) else None
  }

  /** The characters before `k` agree with what the scan has read. */
  ghost predicate ScannedOk(s: string, i: nat, k: nat)
    requires i <= k <= |s|
  {
    && (forall t :: i <= t < k && t < i + |MarkerOpen| ==> s[t] == MarkerOpen[t - i])
    && (forall t :: i + |MarkerOpen| <= t < k ==> InNameClass(s[t]))
  }

  lemma {:induction false} ScanSound(s: string, i: nat, k: nat)
    requires i <= k <= |s|
    requires ScannedOk(s, i, k)
    requires Scan(s, i, k).Some?
    ensures MarkerOccursAt(s, i, Scan(s, i, k).value)
    decreases |s| - k
  {
    if k < i + |MarkerOpen| || InNameClass(s[k]) {
      ScanSound(s, i, k + 1);
    } else {
      ScanEnd(s, i, k);
    }
  }

  /** The scan stops on ']' after a class run ending in ".csv": what it
      read is a marker. */
  lemma ScanEnd(s: string, i: nat, k: nat)
    requires i + |MarkerOpen| <= k < |s|
    requires ScannedOk(s, i, k)
    requires s[k] == ']' && k >= i + |MarkerOpen| + 5 && CsvBefore(s, k)
    ensures MarkerOccursAt(s, i, s[i + |MarkerOpen|..k])
  {
    var start := i + |MarkerOpen|;
    var f := s[start..k];
    forall t | 0 <= t < |f| ensures InNameClass(f[t]) {
      assert f[t] == s[start + t];
    }
    assert f[|f| - 4..] == s[k - 4..k];
    var m := MarkerText(f);
    forall t | 0 <= t < |m| ensures s[i..k + 1][t] == m[t] {
      if t < |MarkerOpen| {
        assert s[i + t] == MarkerOpen[t];
      } else if t < |MarkerOpen| + |f| {
        assert m[t] == f[t - |MarkerOpen|];
      }
    }
    assert s[i..k + 1] == m;
  }

  /** What the expression matches is a marker standing in the text. */
  lemma MarkerAtSound(s: string, i: nat)
    requires MarkerAt(s, i).Some?
    ensures MarkerOccursAt(s, i, MarkerAt(s, i).value)
  {
    ScanSound(s, i, i);
  }

  lemma {:induction false} ScanComplete(s: string, i: nat, k: nat, f: string)
    requires MarkerOccursAt(s, i, f)
    requires i <= k <= i + |MarkerOpen| + |f|
    ensures Scan(s, i, k) == Some(f)
    decreases i + |MarkerOpen| + |f| - k
  {
    var m := MarkerText(f);
    var end := i + |MarkerOpen| + |f|;
    assert s[k] == s[i..i + |m|][k - i] == m[k - i];
    if k < i + |MarkerOpen| {
      assert m[k - i] == MarkerOpen[k - i];
      ScanComplete(s, i, k + 1, f);
    } else if k < end {
      assert m[k - i] == f[k - i - |MarkerOpen|];
      ScanComplete(s, i, k + 1, f);
    } else {
      assert s[k] == ']';
      forall t | 0 <= t < |f| ensures s[i + |MarkerOpen|..k][t] == f[t] {
        assert s[i + |MarkerOpen| + t] == m[|MarkerOpen| + t];
      }
      assert s[i + |MarkerOpen|..k] == f;
      assert s[k - 4..k] == f[|f| - 4..];
    }
  }

  /** Every marker occurrence is recognised where it stands. */
  lemma MarkerAtComplete(s: string, i: nat, f: string)
    requires MarkerOccursAt(s, i, f)
    ensures MarkerAt(s, i) == Some(f)
  {
    ScanComplete(s, i, i, f);
  }

  /** No marker starts in [a, b). */
  ghost predicate NoMarkerIn(s: string, a: nat, b: nat)
  {
    forall j :: a <= j < b ==> MarkerAt(s, j).None?
  }

  datatype Match = Match(index: nat, filename: string)

  /** What `exec` returns when the expression's `lastIndex` is `from`: the
      leftmost marker at or after `from`. */
  function NextMarker(s: string, from: nat): (m: Option<Match>)
    requires from <= |s|
    ensures m.Some? ==> from <= m.value.index && MarkerAt(s, m.value.index) == Some(m.value.filename)
    decreases |s| - from
  {
    if from == |s| then None
    else
      match MarkerAt(s, from)
      case Some(f) => Some(Match(from, f))
      case None => NextMarker(s, from + 1)
  }

  /** The match found is the leftmost one: no marker starts between `from`
      and it, and when none is found no marker starts anywhere after `from`. */
  lemma {:induction false} NextMarkerIsFirst(s: string, from: nat)
    requires from <= |s|
    ensures NextMarker(s, from).Some? ==> NoMarkerIn(s, from, NextMarker(s, from).value.index)
    ensures NextMarker(s, from).None? ==> NoMarkerIn(s, from, |s|)
    decreases |s| - from
  {
    if from < |s| && MarkerAt(s, from).None? {
      NextMarkerIsFirst(s, from + 1);
    }
  }

  /** A marker inside a piece of the text is a marker of the whole text. */
  lemma MarkerInSlice(s: string, a: nat, b: nat, j: nat)
    requires a <= b <= |s|
    requires MarkerAt(s[a..b], j).Some?
    ensures MarkerAt(s, a + j) == MarkerAt(s[a..b], j)
  {
    var t := s[a..b];
    var f := MarkerAt(t, j).value;
    MarkerAtSound(t, j);
    var m := MarkerText(f);
    var n := |m|;
    assert j + n <= |t|;
    forall k | 0 <= k < n ensures s[a + j..a + j + n][k] == m[k] {
      assert s[a + j + k] == t[j + k] == t[j..j + n][k];
    }
    MarkerAtComplete(s, a + j, f);
  }

  lemma NoMarkerInSlice(s: string, a: nat, b: nat)
    requires a <= b <= |s|
    requires NoMarkerIn(s, a, b)
    ensures NoMarkerIn(s[a..b], 0, |s[a..b]|)
  {
    forall j | 0 <= j < b - a ensures MarkerAt(s[a..b], j).None? {
      if MarkerAt(s[a..b], j).Some? {
        MarkerInSlice(s, a, b, j);
      }
    }
  }

  datatype Segment = Text(text: string) | Download(filename: string)

  /** What the renderer returns: the message itself when it produced no
      segment, otherwise the segments. */
  datatype Rendered = Raw(content: string) | Segments(parts: seq<Segment>)

  function SegmentText(p: Segment): string
  {
    match p
    case Text(t) => t
    case Download(f) => MarkerText(f)
  }

  /** The text the segments stand for, markers written back in. */
  function Reassemble(parts: seq<Segment>): string
  {
    if parts == [] then "" else SegmentText(parts[0]) + Reassemble(parts[1..])
  }

  lemma {:induction false} ReassembleConcat(a: seq<Segment>, b: seq<Segment>)
    ensures Reassemble(a + b) == Reassemble(a) + Reassemble(b)
  {
    if a == [] {
      assert a + b == b;
    } else {
      assert (a + b)[1..] == a[1..] + b;
      ReassembleConcat(a[1..], b);
    }
  }

  /** A text segment is non-empty and holds no marker; a download names a
      file the expression can capture. */
  ghost predicate SegmentOk(p: Segment)
  {
    match p
    case Text(t) => t != "" && NoMarkerIn(t, 0, |t|)
    case Download(f) => ValidMarkerName(f)
  }

  /** Every segment is well formed and no two text segments are adjacent. */
  ghost predicate WellFormed(parts: seq<Segment>)
  {
    && (forall k :: 0 <= k < |parts| ==> SegmentOk(parts[k]))
    && (forall k :: 0 <= k < |parts| - 1 && parts[k].Text? ==> parts[k + 1].Download?)
  }

  /** The search comes back empty when no marker lies ahead. */
  lemma {:induction false} NoMarkerNoMatch(s: string, from: nat)
    requires from <= |s|
    requires NoMarkerIn(s, from, |s|)
    ensures NextMarker(s, from).None?
    decreases |s| - from
  {
    if from < |s| {
      assert MarkerAt(s, from).None?;
      NoMarkerNoMatch(s, from + 1);
    }
  }

  /** The search finds the first marker after a marker-free stretch. */
  lemma {:induction false} FirstMarkerFound(s: string, from: nat, p: nat, f: string)
    requires from <= p < |s|
    requires NoMarkerIn(s, from, p)
    requires MarkerAt(s, p) == Some(f)
    ensures NextMarker(s, from) == Some(Match(p, f))
    decreases p - from
  {
    if from < p {
      assert MarkerAt(s, from).None?;
      FirstMarkerFound(s, from + 1, p, f);
    }
  }

  /** The segments the renderer produces once the expression's `lastIndex`
      has reached `from`: the text before the next marker (when there is
      any), the marker's download, and what follows it; or, with no marker
      left, the rest of the message as text (when there is any). */
  function SegmentsFrom(s: string, from: nat): seq<Segment>
    requires from <= |s|
    decreases |s| - from
  {
    var m := NextMarker(s, from);
    if m.None? then TextBetween(s, from, |s|)
    else
      TextBetween(s, from, m.value.index) + [Download(m.value.filename)]
      + SegmentsFrom(s, m.value.index + MarkerLength(m.value.filename))
  }

  /** The text segment for s[a..b], none when that is empty. */
  function TextBetween(s: string, a: nat, b: nat): seq<Segment>
    requires a <= b <= |s|
  {
    if a < b then [Text(s[a..b])] else []
  }

  /** One step of the segmentation: up to and including the next marker. */
  lemma SegmentsFromStep(s: string, from: nat, index: nat, f: string)
    requires from <= |s|
    requires NextMarker(s, from) == Some(Match(index, f))
    ensures from <= index && index + MarkerLength(f) <= |s|
    ensures SegmentsFrom(s, from)
            == TextBetween(s, from, index) + [Download(f)] + SegmentsFrom(s, index + MarkerLength(f))
  {
    SegmentsFromSome(s, from);
  }

  /** The definition of `SegmentsFrom` when a marker lies ahead. */
  lemma SegmentsFromSome(s: string, from: nat)
    requires from <= |s| && NextMarker(s, from).Some?
    ensures var m := NextMarker(s, from).value;
            && m.index + MarkerLength(m.filename) <= |s|
            && SegmentsFrom(s, from)
               == TextBetween(s, from, m.index) + [Download(m.filename)]
                  + SegmentsFrom(s, m.index + MarkerLength(m.filename))
  {
  }

  /** The renderer's result for a whole message. */
  function Render(content: string): Rendered
  {
    var parts := SegmentsFrom(content, 0);
    if parts == [] then Raw(content) else Segments(parts)
  }

  /** Without a further marker the rest of the message is one text segment
      (or nothing). */
  lemma SegmentsFromNone(s: string, from: nat)
    requires from <= |s|
    requires NextMarker(s, from).None?
    ensures SegmentsFrom(s, from) == TextBetween(s, from, |s|)
  {
  }

  /** One turn of the renderer's loop keeps "what is collected, followed by
      the segmentation of the rest, is the segmentation of the message". */
  lemma LoopStep(s: string, parts: seq<Segment>, last: nat, index: nat, f: string)
    requires last <= |s|
    requires NextMarker(s, last) == Some(Match(index, f))
    requires parts + SegmentsFrom(s, last) == SegmentsFrom(s, 0)
    ensures last <= index && index + MarkerLength(f) <= |s|
    ensures parts + TextBetween(s, last, index) + [Download(f)] + SegmentsFrom(s, index + MarkerLength(f))
            == SegmentsFrom(s, 0)
  {
    SegmentsFromStep(s, last, index, f);
    ConcatAssocFour(parts, TextBetween(s, last, index), [Download(f)], SegmentsFrom(s, index + MarkerLength(f)));
  }

  /** The renderer's loop: text before each marker, the marker itself, and
      the text after the last one. */
  method SegmentMessage(content: string) returns (parts: seq<Segment>)
    ensures parts == SegmentsFrom(content, 0)
  {
    parts := [];
    var lastIndex := 0;
    var m := NextMarker(content, 0);
    while m.Some?
      invariant lastIndex <= |content|
      invariant m == NextMarker(content, lastIndex)
      invariant parts + SegmentsFrom(content, lastIndex) == SegmentsFrom(content, 0)
      decreases |content| - lastIndex
    {
      var index, filename := m.value.index, m.value.filename;
      LoopStep(content, parts, lastIndex, index, filename);
      ghost var before := parts;
      if index > lastIndex {
        parts := parts + [Text(content[lastIndex..index])];
      }
      assert parts == before + TextBetween(content, lastIndex, index);
      parts := parts + [Download(filename)];
      lastIndex := index + MarkerLength(filename);
      m := NextMarker(content, lastIndex);
    }
    SegmentsFromNone(content, lastIndex);
    if lastIndex < |content| {
      assert content[lastIndex..|content|] == content[lastIndex..];
      parts := parts + [Text(content[lastIndex..])];
    } else {
      assert parts + [] == parts;
    }
  }

  /** The renderer: the segments, or the message itself when there are none. */
  method RenderMessageContent(content: string) returns (r: Rendered)
    ensures r == Render(content)
  {
    var parts := SegmentMessage(content);
    if |parts| == 0 {
      return Raw(content);
    }
    return Segments(parts);
  }

  /** Writing the segments back gives the message from `from` on. */
  lemma {:induction false} SegmentsFromReassemble(s: string, from: nat)
    requires from <= |s|
    ensures Reassemble(SegmentsFrom(s, from)) == s[from..]
    decreases |s| - from
  {
    if NextMarker(s, from).None? {
      ReassembleLast(s, from);
    } else {
      var index, f, end := NextStep(s, from);
      SegmentsFromReassemble(s, end);
      ReassembleStep(s, from, index, end, f, SegmentsFrom(s, end));
    }
  }

  /** The renderer's next step from `from`, when there is a marker: the
      marker found, where it ends, and how the segmentation continues. */
  lemma NextStep(s: string, from: nat) returns (index: nat, f: string, end: nat)
    requires from <= |s| && NextMarker(s, from).Some?
    ensures NextMarker(s, from) == Some(Match(index, f))
    ensures from <= index < end <= |s| && end == index + MarkerLength(f)
    ensures s[index..end] == MarkerText(f)
    ensures SegmentsFrom(s, from) == TextBetween(s, from, index) + [Download(f)] + SegmentsFrom(s, end)
  {
    index, f := NextMarker(s, from).value.index, NextMarker(s, from).value.filename;
    end := index + MarkerLength(f);
    SegmentsFromStep(s, from, index, f);
    MarkerAtSound(s, index);
  }

  /** The text after the last marker written back. */
  lemma ReassembleLast(s: string, from: nat)
    requires from <= |s|
    requires NextMarker(s, from).None?
    ensures Reassemble(SegmentsFrom(s, from)) == s[from..]
  {
    SegmentsFromNone(s, from);
    assert s[from..|s|] == s[from..];
    ReassembleTextBetween(s, from, |s|);
  }

  /** One step of the above: the text before a marker, the marker, and the
      rest written back. */
  lemma ReassembleStep(s: string, from: nat, index: nat, end: nat, f: string, rest: seq<Segment>)
    requires from <= index <= end <= |s|
    requires s[index..end] == MarkerText(f)
    requires Reassemble(rest) == s[end..]
    ensures Reassemble(TextBetween(s, from, index) + [Download(f)] + rest) == s[from..]
  {
    var lead := TextBetween(s, from, index);
    ReassembleConcat(lead + [Download(f)], rest);
    ReassembleConcat(lead, [Download(f)]);
    ReassembleTextBetween(s, from, index);
    ReassembleSingle(Download(f));
    SliceSplit(s, from, index, end);
  }

  lemma ReassembleSingle(p: Segment)
    ensures Reassemble([p]) == SegmentText(p)
  {
    assert [p][1..] == [];
  }

  lemma ReassembleTextBetween(s: string, a: nat, b: nat)
    requires a <= b <= |s|
    ensures Reassemble(TextBetween(s, a, b)) == s[a..b]
  {
    if a < b {
      ReassembleSingle(Text(s[a..b]));
    }
  }

  lemma WellFormedConcat(a: seq<Segment>, b: seq<Segment>)
    requires WellFormed(a) && WellFormed(b)
    requires a != [] && b != [] && a[|a| - 1].Text? ==> b[0].Download?
    ensures WellFormed(a + b)
  {
    var ab := a + b;
    forall k | 0 <= k < |ab| ensures SegmentOk(ab[k]) {
      if k < |a| { assert ab[k] == a[k]; } else { assert ab[k] == b[k - |a|]; }
    }
    forall k | 0 <= k < |ab| - 1 && ab[k].Text? ensures ab[k + 1].Download? {
      if k + 1 < |a| {
        assert ab[k] == a[k] && ab[k + 1] == a[k + 1];
      } else if k + 1 == |a| {
        assert ab[k] == a[k] && ab[k + 1] == b[0];
      } else {
        assert ab[k] == b[k - |a|] && ab[k + 1] == b[k + 1 - |a|];
      }
    }
  }

  /** A stretch of the message with no marker in it is a valid text segment. */
  lemma TextSegmentOk(s: string, a: nat, b: nat)
    requires a < b <= |s|
    requires NoMarkerIn(s, a, b)
    ensures SegmentOk(Text(s[a..b]))
  {
    NoMarkerInSlice(s, a, b);
  }

  /** The segments are well formed. */
  lemma {:induction false} SegmentsFromWellFormed(s: string, from: nat)
    requires from <= |s|
    ensures WellFormed(SegmentsFrom(s, from))
    decreases |s| - from
  {
    var m := NextMarker(s, from);
    NextMarkerIsFirst(s, from);
    if m.None? {
      SegmentsFromNone(s, from);
      if from < |s| {
        TextSegmentOk(s, from, |s|);
      }
    } else {
      var index, f := m.value.index, m.value.filename;
      var end := index + MarkerLength(f);
      var lead := TextBetween(s, from, index);
      SegmentsFromStep(s, from, index, f);
      MarkerAtSound(s, index);
      if from < index {
        TextSegmentOk(s, from, index);
      }
      assert SegmentOk(Download(f));
      WellFormedConcat(lead, [Download(f)]);
      SegmentsFromWellFormed(s, end);
      WellFormedConcat(lead + [Download(f)], SegmentsFrom(s, end));
    }
  }

  /** Nothing is produced only from the end of the message. */
  lemma SegmentsFromEmpty(s: string, from: nat)
    requires from <= |s|
    ensures SegmentsFrom(s, from) == [] <==> from == |s|
  {
    if from == |s| {
      assert NextMarker(s, from).None?;
    }
  }

  /** The renderer returns the message itself exactly when it is empty;
      otherwise its segments are well formed and write back to the message. */
  lemma RenderSound(content: string)
    ensures Render(content).Raw? <==> content == ""
    ensures Render(content).Raw? ==> Render(content).content == content
    ensures Render(content).Segments? ==>
              Reassemble(Render(content).parts) == content && WellFormed(Render(content).parts)
  {
    SegmentsFromEmpty(content, 0);
    SegmentsFromReassemble(content, 0);
    SegmentsFromWellFormed(content, 0);
    assert content[0..] == content;
  }

  /** A message without markers is rendered as one text segment. */
  lemma RenderWithoutMarkers(content: string)
    requires content != ""
    requires NoMarkerIn(content, 0, |content|)
    ensures Render(content) == Segments([Text(content)])
  {
    NoMarkerNoMatch(content, 0);
    assert content[0..|content|] == content;
  }

  /** A marker lying wholly inside a piece of the text is a marker of that piece. */
  lemma MarkerInsideSlice(s: string, a: nat, t: string, j: nat, f: string)
    requires a <= j && a + |t| <= |s| && s[a..a + |t|] == t
    requires MarkerOccursAt(s, j, f)
    requires j + MarkerLength(f) <= a + |t|
    ensures MarkerAt(t, j - a) == Some(f)
  {
    var n := MarkerLength(f);
    forall k | 0 <= k < n ensures t[j - a..j - a + n][k] == MarkerText(f)[k] {
      assert t[j - a + k] == s[j + k] == s[j..j + n][k];
    }
    MarkerAtComplete(t, j - a, f);
  }

  /** Only the first character of a marker is '['. */
  lemma OpenBracketOnlyFirst(f: string, k: nat)
    requires ValidMarkerName(f)
    requires 1 <= k < MarkerLength(f)
    ensures MarkerText(f)[k] != '['
  {
    var m := MarkerText(f);
    if k < |MarkerOpen| {
      assert m[k] == MarkerOpen[k];
    } else if k < |MarkerOpen| + |f| {
      assert m[k] == f[k - |MarkerOpen|];
      assert InNameClass(f[k - |MarkerOpen|]);
    } else {
      assert m[k] == ']';
    }
  }

  /** Two markers never overlap. */
  lemma MarkersDoNotOverlap(s: string, j: nat, f: string, p: nat, g: string)
    requires MarkerOccursAt(s, j, f) && MarkerOccursAt(s, p, g)
    requires j < p
    ensures j + MarkerLength(f) <= p
  {
    if p < j + MarkerLength(f) {
      assert s[p] == s[p..p + MarkerLength(g)][0] == '[';
      assert s[p] == s[j..j + MarkerLength(f)][p - j] == MarkerText(f)[p - j];
      OpenBracketOnlyFirst(f, p - j);
    }
  }

  lemma WellFormedTail(parts: seq<Segment>, n: nat)
    requires WellFormed(parts) && n <= |parts|
    ensures WellFormed(parts[n..])
  {
    var t := parts[n..];
    forall k | 0 <= k < |t| ensures SegmentOk(t[k]) {
      assert t[k] == parts[n + k];
    }
    forall k | 0 <= k < |t| - 1 && t[k].Text? ensures t[k + 1].Download? {
      assert t[k] == parts[n + k] && t[k + 1] == parts[n + k + 1];
    }
  }

  /** The first segment of a decomposition of s[from..] stands at `from`. */
  lemma ReassembleHead(s: string, from: nat, parts: seq<Segment>)
    requires from <= |s| && parts != []
    requires Reassemble(parts) == s[from..]
    ensures from + |SegmentText(parts[0])| <= |s|
    ensures s[from..from + |SegmentText(parts[0])|] == SegmentText(parts[0])
    ensures Reassemble(parts[1..]) == s[from + |SegmentText(parts[0])|..]
  {
    var h := SegmentText(parts[0]);
    assert s[from..] == h + Reassemble(parts[1..]);
    assert s[from..from + |h|] == s[from..][..|h|];
    assert s[from + |h|..] == s[from..][|h|..];
  }

  /** A well-formed decomposition of s[from..] that starts with a text:
      the text stands at `from` and holds no marker. */
  lemma TextHead(s: string, from: nat, parts: seq<Segment>) returns (t: string)
    requires from <= |s| && parts != [] && parts[0].Text?
    requires WellFormed(parts)
    requires Reassemble(parts) == s[from..]
    ensures parts[0] == Text(t)
    ensures from + |t| <= |s| && s[from..from + |t|] == t
    ensures t != "" && NoMarkerIn(t, 0, |t|)
    ensures Reassemble(parts[1..]) == s[from + |t|..]
  {
    t := parts[0].text;
    ReassembleHead(s, from, parts);
    assert SegmentOk(parts[0]);
  }

  /** After a text at `p`, a well-formed decomposition continues with a
      download whose marker stands at `p`. */
  lemma DownloadAfterText(s: string, p: nat, parts: seq<Segment>) returns (f: string)
    requires p <= |s| && |parts| >= 2 && parts[0].Text?
    requires WellFormed(parts)
    requires Reassemble(parts[1..]) == s[p..]
    ensures parts[1] == Download(f)
    ensures MarkerOccursAt(s, p, f)
    ensures WellFormed(parts[2..])
    ensures Reassemble(parts[2..]) == s[p + MarkerLength(f)..]
  {
    f := parts[1].filename;
    ReassembleHead(s, p, parts[1..]);
    assert SegmentOk(parts[1]);
    assert parts[1..][1..] == parts[2..];
    WellFormedTail(parts, 2);
  }

  /** A text without a marker inside it, which ends at the end of the
      message or where a marker starts, holds no marker start of the
      message either: a marker cannot reach past its end. */
  lemma NoMarkerUnderText(s: string, from: nat, t: string, next: Option<string>)
    requires from + |t| <= |s| && s[from..from + |t|] == t
    requires NoMarkerIn(t, 0, |t|)
    requires next.None? ==> from + |t| == |s|
    requires next.Some? ==> MarkerOccursAt(s, from + |t|, next.value)
    ensures NoMarkerIn(s, from, from + |t|)
  {
    var p := from + |t|;
    forall j | from <= j < p ensures MarkerAt(s, j).None? {
      if MarkerAt(s, j).Some? {
        var g := MarkerAt(s, j).value;
        MarkerAtSound(s, j);
        if j + MarkerLength(g) <= p {
          MarkerInsideSlice(s, from, t, j, g);
        } else {
          MarkersDoNotOverlap(s, j, g, p, next.value);
        }
        assert false;
      }
    }
  }

  /** Any well-formed list of segments that writes back to the message from
      `from` on is the one the renderer produces: the segmentation is unique. */
  lemma {:induction false} SegmentationIsUnique(s: string, from: nat, parts: seq<Segment>)
    requires from <= |s|
    requires WellFormed(parts)
    requires Reassemble(parts) == s[from..]
    ensures parts == SegmentsFrom(s, from)
    decreases |s| - from, 1
  {
    if parts == [] {
      assert |s[from..]| == 0;
      SegmentsFromEmpty(s, from);
    } else if parts[0].Download? {
      UniqueAfterDownload(s, from, parts);
    } else if |parts| == 1 {
      LoneText(s, from, parts);
    } else {
      UniqueAfterText(s, from, parts);
    }
  }

  /** The case of `SegmentationIsUnique` where the segments start with a
      download. */
  lemma {:induction false} UniqueAfterDownload(s: string, from: nat, parts: seq<Segment>)
    requires from <= |s| && parts != [] && parts[0].Download?
    requires WellFormed(parts)
    requires Reassemble(parts) == s[from..]
    ensures parts == SegmentsFrom(s, from)
    decreases |s| - from, 0
  {
    LeadingDownload(s, from, parts);
    var index, f, end := NextStep(s, from);
    SegmentationIsUnique(s, end, parts[1..]);
    Splice(parts, TextBetween(s, from, index), Download(f), SegmentsFrom(s, end), SegmentsFrom(s, from));
  }

  /** The case of `SegmentationIsUnique` where the segments start with a
      text and a download. */
  lemma {:induction false} UniqueAfterText(s: string, from: nat, parts: seq<Segment>)
    requires from <= |s| && |parts| >= 2 && parts[0].Text?
    requires WellFormed(parts)
    requires Reassemble(parts) == s[from..]
    ensures parts == SegmentsFrom(s, from)
    decreases |s| - from, 0
  {
    var t := TextHead(s, from, parts);
    var f := DownloadAfterText(s, from + |t|, parts);
    var end := StepAfterText(s, from, t, f);
    SegmentationIsUnique(s, end, parts[2..]);
    SpliceTwo(parts, Text(t), Download(f), SegmentsFrom(s, end), SegmentsFrom(s, from));
  }

  /** A segmentation starting with a download: that marker is the
      renderer's next match, and the rest segments what follows it. */
  lemma LeadingDownload(s: string, from: nat, parts: seq<Segment>)
    requires from <= |s| && parts != [] && parts[0].Download?
    requires WellFormed(parts)
    requires Reassemble(parts) == s[from..]
    ensures NextMarker(s, from) == Some(Match(from, parts[0].filename))
    ensures from + MarkerLength(parts[0].filename) <= |s|
    ensures WellFormed(parts[1..])
    ensures Reassemble(parts[1..]) == s[from + MarkerLength(parts[0].filename)..]
  {
    var f := parts[0].filename;
    ReassembleHead(s, from, parts);
    assert SegmentOk(parts[0]);
    MarkerAtComplete(s, from, f);
    FirstMarkerFound(s, from, from, f);
    WellFormedTail(parts, 1);
  }

  /** A non-empty marker-free text followed by a marker: the renderer emits
      the text and the download, then segments what follows the marker. */
  lemma StepAfterText(s: string, from: nat, t: string, f: string) returns (end: nat)
    requires from + |t| <= |s| && s[from..from + |t|] == t
    requires t != "" && NoMarkerIn(t, 0, |t|)
    requires MarkerOccursAt(s, from + |t|, f)
    ensures end == from + |t| + MarkerLength(f) && end <= |s|
    ensures SegmentsFrom(s, from) == [Text(t)] + [Download(f)] + SegmentsFrom(s, end)
  {
    end := from + |t| + MarkerLength(f);
    MarkerAfterText(s, from, t, f);
    SegmentsFromStep(s, from, from + |t|, f);
    TextBetweenIs(s, from, t);
    Replace(SegmentsFrom(s, from), TextBetween(s, from, from + |t|), [Text(t)],
            [Download(f)], SegmentsFrom(s, end));
  }

  /** A non-empty text standing at `a` is the one text segment there. */
  lemma TextBetweenIs(s: string, a: nat, t: string)
    requires a + |t| <= |s| && s[a..a + |t|] == t && t != ""
    ensures TextBetween(s, a, a + |t|) == [Text(t)]
  {
  }

  /** A marker-free text followed by a marker: that marker is the
      renderer's next match. */
  lemma MarkerAfterText(s: string, from: nat, t: string, f: string)
    requires from + |t| <= |s| && s[from..from + |t|] == t
    requires NoMarkerIn(t, 0, |t|)
    requires MarkerOccursAt(s, from + |t|, f)
    ensures NextMarker(s, from) == Some(Match(from + |t|, f))
  {
    NoMarkerUnderText(s, from, t, Some(f));
    MarkerAtComplete(s, from + |t|, f);
    FirstMarkerFound(s, from, from + |t|, f);
  }

  /** A segmentation made of one text: the message holds no marker. */
  lemma LoneText(s: string, from: nat, parts: seq<Segment>)
    requires from <= |s| && |parts| == 1 && parts[0].Text?
    requires WellFormed(parts)
    requires Reassemble(parts) == s[from..]
    ensures parts == SegmentsFrom(s, from)
  {
    var t := TextHead(s, from, parts);
    assert parts[1..] == [];
    NoMarkerUnderText(s, from, t, None);
    NoMarkerNoMatch(s, from);
    SegmentsFromNone(s, from);
    assert parts == [parts[0]];
  }

  /** Hence the rendered segments are the message's only well-formed
      segmentation. */
  lemma RenderIsTheOnlySegmentation(content: string, parts: seq<Segment>)
    requires parts != [] && WellFormed(parts) && Reassemble(parts) == content
    ensures Render(content) == Segments(parts)
  {
    assert content[0..] == content;
    SegmentationIsUnique(content, 0, parts);
  }

  /** A filename the renderer extracts is one the download route accepts:
      JavaScript's `\w` is ASCII, a subset of Python's. */
  lemma MarkerNameIsDownloadable(f: string)
    requires ValidMarkerName(f)
    ensures Downloads.IsValidFilename(f)
  {
    var body := f[..|f| - 4];
    forall i | 0 <= i < |body| ensures Downloads.InFilenameClass(body[i]) {
      assert body[i] == f[i];
    }
  }
}
