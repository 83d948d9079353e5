/**
 The download route: a filename is checked against `^[\w\-\.]+\.csv$`
 (with `re.match`) before the data directory is consulted.
 */
module Downloads {

  predicate IsAsciiWordChar(c: char)
  {
    'a' <= c <= 'z' || 'A' <= c <= 'Z' || '0' <= c <= '9' || c == '_'
  }

  /** Python's `\w` on a str pattern, for code points up to U+00FF: the ASCII
      word characters and the Latin-1 letters and numbers
      (U+00AA, U+00B2, U+00B3, U+00B5, U+00B9, U+00BA, U+00BC-U+00BE,
      U+00C0-U+00FF except U+00D7 and U+00F7). */
  predicate IsPyWordChar(c: char)
  {
    var n := c as int;
    || IsAsciiWordChar(c)
    || n == 0xAA || n == 0xB2 || n == 0xB3 || n == 0xB5 || n == 0xB9 || n == 0xBA
    || 0xBC <= n <= 0xBE
    || (0xC0 <= n <= 0xFF && n != 0xD7 && n != 0xF7)
  }

  /** The character class `[\w\-\.]`. */
  predicate InFilenameClass(c: char)
  {
    IsPyWordChar(c) || c == '-' || c == '.'
  }

  predicate AllInClass(s: string)
  {
    forall i :: 0 <= i < |s| ==> InFilenameClass(s[i])
  }

  /** The pattern read directly: a non-empty run of class characters, then
      ".csv", then the end of the string, or a single newline that ends it
      (what `$` admits without MULTILINE). */
  ghost predicate PatternMatches(s: string)
  {
    exists k :: 1 <= k <= |s| && AllInClass(s[..k]) && (s[k..] == ".csv" || s[k..] == ".csv\n")
  }

  /** The pattern with the match ending `n` characters before the end of
      the string: a class run of length `|s| - n`, then `tail`. */
  predicate RunThen(s: string, n: nat, tail: string)
  {
    |s| >= n + 1 && s[|s| - n..] == tail && AllInClass(s[..|s| - n])
  }

  /** The validator as the route runs it. */
  function IsValidFilename(s: string): (ok: bool)
    ensures ok <==> PatternMatches(s)
  {
    PatternEnds(s);
    RunThen(s, 4, ".csv") || RunThen(s, 5, ".csv\n")
  }

  /** The run of a match ends where ".csv", or ".csv" and a newline, starts
      from the end of the string. */
  lemma PatternEnds(s: string)
    ensures PatternMatches(s) <==> RunThen(s, 4, ".csv") || RunThen(s, 5, ".csv\n")
  {
    if RunThen(s, 4, ".csv") {
      assert AllInClass(s[..|s| - 4]) && s[|s| - 4..] == ".csv";
    } else if RunThen(s, 5, ".csv\n") {
      assert AllInClass(s[..|s| - 5]) && s[|s| - 5..] == ".csv\n";
    }
    if PatternMatches(s) {
      var k :| 1 <= k <= |s| && AllInClass(s[..k]) && (s[k..] == ".csv" || s[k..] == ".csv\n");
      if s[k..] == ".csv" {
        assert |s| - 4 == k;
      } else {
        assert |s| - 5 == k;
      }
    }
  }

  /** An accepted name cannot leave the data directory: it holds no path
      separator or NUL, is neither "." nor "..", ends with ".csv" save for one
      permitted final newline, and has at least five characters. */
  lemma AcceptedNameStaysInDataDir(s: string)
    requires IsValidFilename(s)
    ensures '/' !in s && '\\' !in s && '\0' !in s
    ensures s != "." && s != ".."
    ensures |s| >= 5
    ensures s[|s| - 4..] == ".csv" || s[|s| - 5..] == ".csv\n"
    ensures '\n' in s ==> s[|s| - 1] == '\n' && '\n' !in s[..|s| - 1]
    ensures '"' !in s
  {
    var k := if RunThen(s, 4, ".csv") then |s| - 4 else |s| - 5;
    assert AllInClass(s[..k]);
    forall i | 0 <= i < |s|
      ensures s[i] != '/' && s[i] != '\\' && s[i] != '\0' && s[i] != '"'
      ensures s[i] == '\n' ==> i == |s| - 1
    {
      if i < k {
        assert s[..k][i] == s[i];
      } else {
        assert s[i] == s[k..][i - k];
      }
    }
  }

  /** `$` lets one trailing newline through, but only after ".csv". */
  lemma TrailingNewlineAccepted()
    ensures IsValidFilename("report.csv\n")
  {
    var s := "report.csv\n";
    assert s[|s| - 5..] == ".csv\n";
    assert s[..|s| - 5] == "report";
  }

  /** Only one trailing newline passes. */
  lemma TwoNewlinesRejected()
    ensures !IsValidFilename("report.csv\n\n")
  {
    var s := "report.csv\n\n";
    assert s[|s| - 4..][0] != '.';
    assert s[|s| - 5..][0] != '.';
  }

  /** A name with a path separator is refused. */
  lemma TraversalRejected()
    ensures !IsValidFilename("../report.csv")
  {
    var s := "../report.csv";
    assert s[|s| - 4..] == ".csv";
    assert s[..|s| - 4][2] == '/';
    assert s[|s| - 5..][0] != '.';
  }

  /** What the route answers. */
  datatype DownloadResult =
    | BadRequest                                          // 400, "Invalid filename"
    | FileNotFound                                        // 404, "File not found"
    | Serve(filename: string, contentDisposition: string) // the file, as an attachment

  /** `dataFiles` holds the names of the regular files directly in the data
      directory. Validation comes first: an invalid name is refused whatever
      the directory holds. */
  function DownloadFile(filename: string, dataFiles: set<string>): (r: DownloadResult)
    ensures r == BadRequest <==> !IsValidFilename(filename)
    ensures r == FileNotFound <==> IsValidFilename(filename) && filename !in dataFiles
    ensures r.Serve? ==>
              && filename in dataFiles
              && r.filename == filename
              && r.contentDisposition == "attachment; filename=\"" + filename + "\""
  {
    if !IsValidFilename(filename) then BadRequest
    else if filename !in dataFiles then FileNotFound
    else Serve(filename, "attachment; filename=\"" + filename + "\"")
  }
}
