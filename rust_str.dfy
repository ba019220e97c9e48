/**
  The three operations of Rust's `str` that the search relies on:
  `lines` (split into lines), `contains` (substring test) and
  `to_lowercase` (here an ASCII-only fold).
 */
module RustStr {

  // ---------------------------------------------------------------------
  // Substring containment (`str::contains` with a `&str` pattern)
  // ---------------------------------------------------------------------

  /** `q` occurs in `s` starting at position `i`. */
  ghost predicate OccursAt(s: string, q: string, i: int)
  {
    0 <= i && i + |q| <= |s| && s[i..i + |q|] == q
  }

  predicate IsPrefix(q: string, s: string)
  {
    |q| <= |s| && s[..|q|] == q
  }

  /** `s.contains(q)`: does `q` occur in `s` as a contiguous run? */
  function Contains(s: string, q: string): bool
    decreases |s|
  {
    IsPrefix(q, s) || (s != [] && Contains(s[1..], q))
  }

  /** `Contains` is exactly "there is a position where `q` occurs". */
  lemma {:induction false} ContainsIffOccurs(s: string, q: string)
    ensures Contains(s, q) <==> exists i :: OccursAt(s, q, i)
    decreases |s|
  {
    // an occurrence is either at the front or an occurrence in the tail
    forall i | OccursAt(s, q, i)
      ensures (i == 0 && IsPrefix(q, s)) || (i > 0 && OccursAt(s[1..], q, i - 1))
    {
      if i > 0 {
        assert s[1..][i - 1..i - 1 + |q|] == s[i..i + |q|];
      }
    }
    if IsPrefix(q, s) {
      assert OccursAt(s, q, 0);
    }
    if s != [] {
      ContainsIffOccurs(s[1..], q);
      if Contains(s[1..], q) {
        var j :| OccursAt(s[1..], q, j);
        assert s[1..][j..j + |q|] == s[j + 1..j + 1 + |q|];
        assert OccursAt(s, q, j + 1);
      }
    }
  }

  /** The empty pattern occurs in every string. */
  lemma EmptyContainedEverywhere(s: string)
    ensures Contains(s, "")
  {
    assert IsPrefix("", s);
  }

  /** Every character of an occurring pattern is a character of the string. */
  lemma ContainsNeedsChars(s: string, q: string)
    ensures Contains(s, q) ==> forall c :: c in q ==> c in s
  {
    ContainsIffOccurs(s, q);
    if Contains(s, q) {
      var i :| OccursAt(s, q, i);
      forall c | c in q ensures c in s {
        var k :| 0 <= k < |q| && q[k] == c;
        assert s[i + k] == s[i..i + |q|][k];
      }
    }
  }

  /** A leading part that lacks the pattern's first character holds no occurrence. */
  lemma {:induction false} ContainsAfter(a: string, b: string, q: string)
    requires q != [] && q[0] !in a
    ensures Contains(a + b, q) == Contains(b, q)
    decreases |a|
  {
    if a == [] {
      assert a + b == b;
    } else {
      assert (a + b)[0] == a[0];
      assert (a + b)[1..] == a[1..] + b;
      assert !IsPrefix(q, a + b);
      ContainsAfter(a[1..], b, q);
    }
  }

  // ---------------------------------------------------------------------
  // Lower-casing (`str::to_lowercase`, restricted to ASCII letters)
  // ---------------------------------------------------------------------

  predicate IsAsciiUpper(c: char)
  {
    'A' <= c <= 'Z'
  }

  function LowerChar(c: char): char
  {
    if IsAsciiUpper(c) then (c as int + 32) as char else c
  }

  /** Folds every ASCII capital to its small letter; other characters are kept. */
  function ToLowercase(s: string): (r: string)
    ensures |r| == |s|
    ensures forall i :: 0 <= i < |r| ==> !IsAsciiUpper(r[i])
    ensures forall i :: 0 <= i < |s| && !IsAsciiUpper(s[i]) ==> r[i] == s[i]
    ensures forall i :: 0 <= i < |s| && IsAsciiUpper(s[i]) ==> r[i] as int == s[i] as int + 32
  {
    seq(|s|, i requires 0 <= i < |s| => LowerChar(s[i]))
  }

  /** Lower-casing twice is lower-casing once. */
  lemma ToLowercaseIdempotent(s: string)
    ensures ToLowercase(ToLowercase(s)) == ToLowercase(s)
  {
  }

  /** An exact-case occurrence is still an occurrence after folding both sides. */
  lemma ContainsLowercased(s: string, q: string)
    requires Contains(s, q)
    ensures Contains(ToLowercase(s), ToLowercase(q))
  {
    ContainsIffOccurs(s, q);
    var i :| OccursAt(s, q, i);
    assert ToLowercase(s)[i..i + |q|] == ToLowercase(q);
    assert OccursAt(ToLowercase(s), ToLowercase(q), i);
    ContainsIffOccurs(ToLowercase(s), ToLowercase(q));
  }

  // ---------------------------------------------------------------------
  // Line splitting (`str::lines`)
  // ---------------------------------------------------------------------

  /** Index of the first line feed of `text`, or `|text|` when there is none. */
  function LineEnd(text: string): (n: nat)
    ensures n <= |text|
    ensures forall i :: 0 <= i < n ==> text[i] != '\n'
    ensures n < |text| ==> text[n] == '\n'
    decreases |text|
  {
    if text == [] || text[0] == '\n' then 0 else 1 + LineEnd(text[1..])
  }

  predicate EndsWithCr(line: string)
  {
    |line| > 0 && line[|line| - 1] == '\r'
  }

  /** Drops the carriage return of a "\r\n" terminator. */
  function StripCr(line: string): string
  {
    if EndsWithCr(line) then line[..|line| - 1] else line
  }

  /**
    `text.lines()`: the line terminator is "\n" or "\r\n"; the last line
    needs no terminator, and a terminator at the very end of the text does
    not start an empty last line. The empty text has no lines.
   */
  function Lines(text: string): seq<string>
    decreases |text|
  {
    if text == [] then []
    else
      var n := LineEnd(text);
      if n == |text| then [text]
      else [StripCr(text[..n])] + Lines(text[n + 1..])
  }

  /** No line holds a line feed. */
  lemma {:induction false} LinesHaveNoLineFeed(text: string)
    ensures forall line :: line in Lines(text) ==> '\n' !in line
    decreases |text|
  {
    if text != [] {
      var n := LineEnd(text);
      if n < |text| {
        assert '\n' !in text[..n];
        LinesHaveNoLineFeed(text[n + 1..]);
      }
    }
  }

  /** What printing each line followed by a line feed produces. */
  function Unlines(lines: seq<string>): string
  {
    if lines == [] then [] else lines[0] + "\n" + Unlines(lines[1..])
  }

  /** A line ended by a line feed is split off as it stands. */
  lemma LinesCons(line: string, rest: string)
    requires '\n' !in line && !EndsWithCr(line)
    ensures Lines(line + "\n" + rest) == [line] + Lines(rest)
  {
    var text := line + "\n" + rest;
    assert text[|line|] == '\n';
    assert forall i :: 0 <= i < |line| ==> text[i] == line[i];
    assert text[..|line|] == line;
    assert text[|line| + 1..] == rest;
    assert forall i :: 0 <= i < |line| ==> text[i] != '\n';
    assert LineEnd(text) == |line|;
  }

  /** A line ended by "\r\n" is split off without its carriage return, ahead of the lines of the rest. */
  lemma LinesConsCrLf(line: string, rest: string)
    requires '\n' !in line
    ensures Lines(line + "\r\n" + rest) == [line] + Lines(rest)
  {
    var text := line + "\r\n" + rest;
    var n := |line| + 1;
    assert forall i :: 0 <= i < |line| ==> text[i] == line[i];
    assert text[|line|] == '\r' && text[n] == '\n';
    assert forall i :: 0 <= i < n ==> text[i] != '\n';
    assert LineEnd(text) == n;
    assert text[..n] == line + "\r";
    assert StripCr(line + "\r") == line;
    assert text[n + 1..] == rest;
  }

  /** A non-empty text without line feeds is one line. */
  lemma LinesOfSingleLine(line: string)
    requires line != [] && '\n' !in line
    ensures Lines(line) == [line]
  {
    assert forall i :: 0 <= i < |line| ==> line[i] in line;
  }

  /** Splitting the text that `Unlines` builds gives back the lines. */
  lemma {:induction false} LinesOfUnlines(lines: seq<string>)
    requires forall line :: line in lines ==> '\n' !in line && !EndsWithCr(line)
    ensures Lines(Unlines(lines)) == lines
  {
    if lines != [] {
      LinesCons(lines[0], Unlines(lines[1..]));
      LinesOfUnlines(lines[1..]);
    }
  }

  /** The lines separated by line feeds, with no terminator after the last. */
  function JoinLines(lines: seq<string>): string
    requires lines != []
  {
    if |lines| == 1 then lines[0] else lines[0] + "\n" + JoinLines(lines[1..])
  }

  /**
    Splitting lines joined by line feeds gives them back when the last one is
    not empty. Only the lines followed by a line feed must not end with a
    carriage return; the unterminated last line keeps one.
   */
  lemma {:induction false} LinesOfJoinLines(lines: seq<string>)
    requires lines != [] && lines[|lines| - 1] != []
    requires forall line :: line in lines ==> '\n' !in line
    requires forall i :: 0 <= i < |lines| - 1 ==> !EndsWithCr(lines[i])
    ensures Lines(JoinLines(lines)) == lines
  {
    var first := lines[0];
    assert first in lines;
    if |lines| == 1 {
      LinesOfSingleLine(first);
    } else {
      var rest := lines[1..];
      assert forall line :: line in rest ==> line in lines;
      assert forall i :: 0 <= i < |rest| - 1 ==> rest[i] == lines[i + 1];
      assert rest[|rest| - 1] == lines[|lines| - 1];
      LinesOfJoinLines(rest);
      assert JoinLines(lines) == first + "\n" + JoinLines(rest);
      LinesCons(first, JoinLines(rest));
      assert lines == [first] + rest;
    }
  }

  /** The unterminated last line keeps a trailing carriage return. */
  lemma LastLineKeepsCr()
    ensures Lines(JoinLines(["b", "a\r"])) == ["b", "a\r"]
  {
    LinesOfJoinLines(["b", "a\r"]);
  }

  /** A text free of carriage returns that is empty or ends with a line feed is rebuilt from its lines. */
  lemma {:induction false} UnlinesOfLines(text: string)
    requires '\r' !in text
    requires text == [] || text[|text| - 1] == '\n'
    ensures Unlines(Lines(text)) == text
    decreases |text|
  {
    if text != [] {
      var n := LineEnd(text);
      assert text[|text| - 1] in text;
      assert n < |text|;
      var line, rest := text[..n], text[n + 1..];
      assert text == line + "\n" + rest;
      assert line == [] || line[|line| - 1] in text;
      assert StripCr(line) == line;
      assert forall c :: c in rest ==> c in text;
      UnlinesOfLines(rest);
      assert Lines(text) == [line] + Lines(rest);
    }
  }

  /**
    The final terminator is optional: appending "\r\n" to a non-empty text
    that does not already end a line leaves its lines unchanged, and so
    does appending "\n" when the text does not end with a carriage return.
   */
  lemma {:induction false} FinalTerminatorOptional(text: string, terminator: string)
    requires text != [] && text[|text| - 1] != '\n'
    requires terminator == "\r\n" || (terminator == "\n" && !EndsWithCr(text))
    ensures Lines(text + terminator) == Lines(text)
    decreases |text|
  {
    var whole := text + terminator;
    var n := LineEnd(text);
    assert forall i :: 0 <= i < |text| ==> whole[i] == text[i];
    if n == |text| {
      var m := |terminator| - 1;
      assert whole[|text| + m] == '\n';
      assert forall i :: 0 <= i < |text| + m ==> whole[i] != '\n';
      assert LineEnd(whole) == |text| + m;
      assert whole[|text| + m + 1..] == [];
      if terminator == "\r\n" {
        assert whole[..|text| + m] == text + "\r";
        assert StripCr(text + "\r") == text;
      } else {
        assert whole[..|text| + m] == text;
      }
    } else {
      assert n < |text| - 1;
      assert LineEnd(whole) == n;
      var rest := text[n + 1..];
      assert whole[..n] == text[..n];
      assert whole[n + 1..] == rest + terminator;
      assert rest[|rest| - 1] == text[|text| - 1];
      assert EndsWithCr(rest) == EndsWithCr(text);
      FinalTerminatorOptional(rest, terminator);
    }
  }
}
