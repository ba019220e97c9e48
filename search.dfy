/**
  The searches of `src/lib.rs` and the branch of `run` that chooses
  between them.
 */
module Search {
  import opened RustStr
  import opened Filtering
  import opened Configuration

  /** Whether one line is reported for `query` under the given case mode. */
  predicate LineMatches(line: string, query: string, caseSensitive: bool)
  {
    if caseSensitive then Contains(line, query)
    else Contains(ToLowercase(line), ToLowercase(query))
  }

  function Matcher(query: string, caseSensitive: bool): string -> bool
  {
    line => LineMatches(line, query, caseSensitive)
  }

  /**
    The search as specified: the lines of `contents` that match `query`
    under the case mode, kept in their order and returned as they stand in
    `contents` (not lower-cased).
   */
  function MatchingLines(query: string, contents: string, caseSensitive: bool): seq<string>
  {
    Filter(Lines(contents), Matcher(query, caseSensitive))
  }

  /**
    Every result line is a line of `contents`, a line is in the result iff it
    matches, the result keeps the order of `contents`, and so it is no longer
    than the list of lines.
   */
  lemma MatchingLinesSpec(query: string, contents: string, caseSensitive: bool)
    ensures |MatchingLines(query, contents, caseSensitive)| <= |Lines(contents)|
    ensures forall line :: line in MatchingLines(query, contents, caseSensitive) <==>
              line in Lines(contents) && LineMatches(line, query, caseSensitive)
    ensures IsSubsequence(MatchingLines(query, contents, caseSensitive), Lines(contents))
  {
    FilterMembers(Lines(contents), Matcher(query, caseSensitive));
    FilterIsSubsequence(Lines(contents), Matcher(query, caseSensitive));
  }

  /** `case_sensitive_search`: `contents.lines().filter(|line| line.contains(query)).collect()`. */
  function CaseSensitiveSearch(query: string, contents: string): (r: seq<string>)
    ensures r == MatchingLines(query, contents, true)
  {
    FilterSameTest(Lines(contents), line => Contains(line, query), Matcher(query, true));
    Filter(Lines(contents), line => Contains(line, query))
  }

  /**
    `case_insensitive_search`: walks the lines of `contents`, pushing each
    line whose lower-cased form contains the lower-cased query.
   */
  method CaseInsensitiveSearch(query: string, contents: string) returns (result: seq<string>)
    ensures result == MatchingLines(query, contents, false)
  {
    result := [];
    var lines := Lines(contents);
    for i := 0 to |lines|
      invariant result == Filter(lines[..i], Matcher(query, false))
    {
      if Contains(ToLowercase(lines[i]), ToLowercase(query)) {
        result := result + [lines[i]];
      }
      assert lines[..i + 1] == lines[..i] + [lines[i]];
      FilterAppend(lines[..i], [lines[i]], Matcher(query, false));
    }
    assert lines[..|lines|] == lines;
  }

  /** Why `run` stops before searching: the file could not be read. */
  datatype RunError = ReadError(cause: string)

  /**
    `run` without its I/O: `fileContents` is what `fs::read_to_string`
    returned, and the result holds the lines `run` prints, in order.
   */
  method Run(config: Config, fileContents: Result<string, string>) returns (r: Result<seq<string>, RunError>)
    ensures fileContents.Err? ==> r == Err(ReadError(fileContents.error))
    ensures fileContents.Ok? ==>
              r == Ok(MatchingLines(config.query, fileContents.value, config.caseSensitive))
  {
    if fileContents.Err? {
      return Err(ReadError(fileContents.error));
    }
    var contents := fileContents.value;
    var result;
    if config.caseSensitive {
      result := CaseSensitiveSearch(config.query, contents);
    } else {
      result := CaseInsensitiveSearch(config.query, contents);
    }
    r := Ok(result);
  }

  /**
    Either search, exactly: a sequence is the result if and only if it is
    an order-preserving selection from the lines of `contents` that holds
    each matching line as often as `contents` does and nothing else.
   */
  lemma MatchingLinesCharacterized(query: string, contents: string, caseSensitive: bool, r: seq<string>)
    ensures r == MatchingLines(query, contents, caseSensitive) <==>
              IsSubsequence(r, Lines(contents)) &&
              forall line :: multiset(r)[line] ==
                if LineMatches(line, query, caseSensitive) then multiset(Lines(contents))[line] else 0
  {
    FilterCharacterized(Lines(contents), Matcher(query, caseSensitive), r);
  }

  /** The empty query matches every line, so either search returns all lines unchanged. */
  lemma EmptyQueryMatchesEveryLine(contents: string, caseSensitive: bool)
    ensures MatchingLines("", contents, caseSensitive) == Lines(contents)
  {
    forall line | line in Lines(contents) ensures LineMatches(line, "", caseSensitive) {
      EmptyContainedEverywhere(line);
      EmptyContainedEverywhere(ToLowercase(line));
    }
    FilterKeepsAll(Lines(contents), Matcher("", caseSensitive));
  }

  /** A text with no matching line gives an empty result, never an error. */
  lemma NoMatchGivesEmpty(query: string, contents: string, caseSensitive: bool)
    requires forall line :: line in Lines(contents) ==> !LineMatches(line, query, caseSensitive)
    ensures MatchingLines(query, contents, caseSensitive) == []
  {
    var r := MatchingLines(query, contents, caseSensitive);
    MatchingLinesSpec(query, contents, caseSensitive);
    assert forall i :: 0 <= i < |r| ==> r[i] in r;
  }

  /** Every line found by the case-sensitive search is found by the case-insensitive one. */
  lemma SensitiveWithinInsensitive(query: string, contents: string, line: string)
    requires line in MatchingLines(query, contents, true)
    ensures line in MatchingLines(query, contents, false)
  {
    MatchingLinesSpec(query, contents, true);
    MatchingLinesSpec(query, contents, false);
    ContainsLowercased(line, query);
  }

  /** Without ASCII capitals in the query or the text, the two modes agree. */
  lemma ModesAgreeWithoutCapitals(query: string, contents: string)
    requires forall i :: 0 <= i < |query| ==> !IsAsciiUpper(query[i])
    requires forall i :: 0 <= i < |contents| ==> !IsAsciiUpper(contents[i])
    ensures MatchingLines(query, contents, true) == MatchingLines(query, contents, false)
  {
    assert ToLowercase(query) == query;
    forall line | line in Lines(contents) ensures ToLowercase(line) == line {
      LinesFromText(contents, line);
      forall i | 0 <= i < |line| ensures !IsAsciiUpper(line[i]) {
        assert line[i] in line;
        var j :| 0 <= j < |contents| && contents[j] == line[i];
      }
    }
    FilterSameTest(Lines(contents), Matcher(query, true), Matcher(query, false));
  }

  /** Every character of a line of the text is a character of the text. */
  lemma {:induction false} LinesFromText(text: string, line: string)
    requires line in Lines(text)
    ensures forall c :: c in line ==> c in text
    decreases |text|
  {
    var n := LineEnd(text);
    if n < |text| {
      var first := StripCr(text[..n]);
      if line == first {
        assert forall i :: 0 <= i < |first| ==> first[i] == text[i];
      } else {
        var rest := text[n + 1..];
        assert forall i :: 0 <= i < |rest| ==> rest[i] == text[n + 1 + i];
        LinesFromText(rest, line);
      }
    }
  }

  /** "duct" occurs in the second line of the crate's case-sensitive test ... */
  lemma DuctFound(line: string, query: string)
    requires line == "safe, fast, productive." && query == "duct"
    ensures Contains(line, query)
  {
    assert line[15..19] == query;
    assert OccursAt(line, query, 15);
    ContainsIffOccurs(line, query);
  }

  /** ... and in none of its other lines, which have no small 'd'. */
  lemma DuctMissing(line: string, query: string)
    requires line == "Rust:" || line == "Pick three." || line == "Duct tape."
    requires query == "duct"
    ensures !Contains(line, query)
  {
    assert 'd' in query && 'd' !in line;
    ContainsNeedsChars(line, query);
  }

  /** Each line of the two sample texts is non-empty and holds no line break. */
  lemma SampleLinePlain(line: string)
    requires line == "Rust:" || line == "safe, fast, productive." || line == "Pick three." ||
             line == "Duct tape." || line == "Trust me."
    ensures line != [] && '\n' !in line && !EndsWithCr(line)
  {
  }

  /** The lines of the sample text of the case-sensitive test. */
  lemma DuctSampleLines(a: string, b: string, c: string, d: string)
    requires a == "Rust:" && b == "safe, fast, productive." && c == "Pick three." && d == "Duct tape."
    ensures Lines(a + "\n" + (b + "\n" + (c + "\n" + d))) == [a, b, c, d]
  {
    SampleLinePlain(a);
    SampleLinePlain(b);
    SampleLinePlain(c);
    SampleLinePlain(d);
    LinesOfSingleLine(d);
    LinesCons(c, d);
    LinesCons(b, c + "\n" + d);
    LinesCons(a, b + "\n" + (c + "\n" + d));
  }

  /** Filtering the four lines of the case-sensitive test by "duct". */
  lemma SensitiveSampleFilter(a: string, b: string, c: string, d: string, query: string)
    requires a == "Rust:" && b == "safe, fast, productive." && c == "Pick three." && d == "Duct tape."
    requires query == "duct"
    ensures Filter([a, b, c, d], Matcher(query, true)) == [b]
  {
    var keep := Matcher(query, true);
    DuctMissing(a, query);
    DuctFound(b, query);
    DuctMissing(c, query);
    DuctMissing(d, query);
    assert !keep(a) && keep(b) && !keep(c) && !keep(d);
    FilterCons(d, [], keep);
    FilterCons(c, [d], keep);
    FilterCons(b, [c, d], keep);
    FilterCons(a, [b, c, d], keep);
    assert [a] + [b, c, d] == [a, b, c, d] && [b] + [c, d] == [b, c, d] && [c] + [d] == [c, d];
  }

  /** The crate's case-sensitive test: "duct" finds only the second line, not "Duct tape.". */
  lemma CaseSensitiveExample(query: string, contents: string)
    requires query == "duct"
    requires contents == "Rust:" + "\n" + ("safe, fast, productive." + "\n" + ("Pick three." + "\n" + "Duct tape."))
    ensures CaseSensitiveSearch(query, contents) == ["safe, fast, productive."]
  {
    var a, b, c, d := "Rust:", "safe, fast, productive.", "Pick three.", "Duct tape.";
    DuctSampleLines(a, b, c, d);
    SensitiveSampleFilter(a, b, c, d, query);
  }

  /** "Rust:" and "Trust me." contain "rust" once lower-cased ... */
  lemma RustFound(line: string, query: string)
    requires line == "Rust:" || line == "Trust me."
    requires query == "rUst"
    ensures LineMatches(line, query, false)
  {
    assert ToLowercase(query) == "rust";
    if line == "Rust:" {
      assert ToLowercase(line) == "rust:";
      assert IsPrefix("rust", "rust:");
    } else {
      assert ToLowercase(line) == "trust me.";
      assert IsPrefix("rust", "trust me."[1..]);
    }
  }

  /** ... and "safe, fast, productive." does not: its only 'r' is followed by 'o'. */
  lemma RustMissing(line: string, query: string)
    requires line == "safe, fast, productive." && query == "rUst"
    ensures !LineMatches(line, query, false)
  {
    assert ToLowercase(query) == "rust";
    assert ToLowercase(line) == line;
    NoRustInSafeLine(line, "rust");
  }

  /** "rust" does not occur in the second line of the case-insensitive test. */
  lemma NoRustInSafeLine(line: string, query: string)
    requires line == "safe, fast, productive." && query == "rust"
    ensures !Contains(line, query)
  {
    var before, r, after := "safe, fast, p", "r", "oductive.";
    assert line == before + (r + after);
    NoSmallR(before);
    NoRustAfterR(r, after, query);
    ContainsAfter(before, r + after, query);
  }

  /** The parts of that line around its only 'r' have no 'r'. */
  lemma NoSmallR(s: string)
    requires s == "safe, fast, p" || s == "oductive."
    ensures 'r' !in s
  {
  }

  /** The 'r' of "productive." starts no occurrence of "rust". */
  lemma NoRustAfterR(r: string, after: string, query: string)
    requires r == "r" && after == "oductive." && query == "rust"
    ensures !Contains(r + after, query)
  {
    assert !IsPrefix(query, r + after) by {
      assert (r + after)[..|query|][1] == after[0];
    }
    assert (r + after)[1..] == after;
    NoSmallR(after);
    assert 'r' in query;
    ContainsNeedsChars(after, query);
  }

  /** The lines of the sample text of the case-insensitive test. */
  lemma RustSampleLines(a: string, b: string, c: string)
    requires a == "Rust:" && b == "safe, fast, productive." && c == "Trust me."
    ensures Lines(a + "\n" + (b + "\n" + c)) == [a, b, c]
  {
    SampleLinePlain(a);
    SampleLinePlain(b);
    SampleLinePlain(c);
    LinesOfSingleLine(c);
    LinesCons(b, c);
    LinesCons(a, b + "\n" + c);
  }

  /** Filtering the three lines of the case-insensitive test by "rUst". */
  lemma InsensitiveSampleFilter(a: string, b: string, c: string, query: string)
    requires a == "Rust:" && b == "safe, fast, productive." && c == "Trust me."
    requires query == "rUst"
    ensures Filter([a, b, c], Matcher(query, false)) == [a, c]
  {
    var keep := Matcher(query, false);
    RustFound(a, query);
    RustMissing(b, query);
    RustFound(c, query);
    assert keep(a) && !keep(b) && keep(c);
    FilterCons(c, [], keep);
    FilterCons(b, [c], keep);
    FilterCons(a, [b, c], keep);
    assert [a] + [b, c] == [a, b, c] && [b] + [c] == [b, c];
  }

  /** The crate's case-insensitive test: "rUst" finds "Rust:" and "Trust me.". */
  lemma CaseInsensitiveExample(query: string, contents: string)
    requires query == "rUst"
    requires contents == "Rust:" + "\n" + ("safe, fast, productive." + "\n" + "Trust me.")
    ensures MatchingLines(query, contents, false) == ["Rust:", "Trust me."]
  {
    var a, b, c := "Rust:", "safe, fast, productive.", "Trust me.";
    RustSampleLines(a, b, c);
    InsensitiveSampleFilter(a, b, c, query);
  }
}
