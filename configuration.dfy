/**
 * The text handling of ConfigurationService: LoadProxiesAsync turns the proxy
 * file into its non-empty trimmed lines, and LoadProxiesAsync and
 * LoadPromptAsync fall back to an empty list and an empty prompt when their
 * file is missing. Reading the file is left out: its content is a parameter,
 * None when File.Exists is false.
 */
module Configuration {
  import opened Wrappers
  import opened Strings

  predicate IsLineBreak(c: char) {
    c == '\r' || c == '\n'
  }

  /** text.Split(new[] { "\r\n", "\n", "\r" }, StringSplitOptions.None): at each
      position "\r\n" is tried first, so it makes one break, not two. */
  function SplitLines(s: string): (r: seq<string>)
    ensures |r| >= 1
    decreases |s|
  {
    if s == [] then [[]]
    else if |s| >= 2 && s[0] == '\r' && s[1] == '\n' then [[]] + SplitLines(s[2..])
    else if IsLineBreak(s[0]) then [[]] + SplitLines(s[1..])
    else
      var rest := SplitLines(s[1..]);
      [[s[0]] + rest[0]] + rest[1..]
  }

  /** No line holds a line break. */
  predicate BreakFree(lines: seq<string>) {
    forall k :: 0 <= k < |lines| ==> '\r' !in lines[k] && '\n' !in lines[k]
  }

  /** No line of the split holds a line break. */
  lemma {:induction false} SplitLinesHaveNoBreak(s: string)
    ensures BreakFree(SplitLines(s))
    decreases |s|
  {
    if s == [] {
    } else if |s| >= 2 && s[0] == '\r' && s[1] == '\n' {
      SplitLinesHaveNoBreak(s[2..]);
      var rest := SplitLines(s[2..]);
      BreakFreeCons(rest);
    } else if IsLineBreak(s[0]) {
      SplitLinesHaveNoBreak(s[1..]);
      var rest := SplitLines(s[1..]);
      BreakFreeCons(rest);
    } else {
      SplitLinesHaveNoBreak(s[1..]);
      var rest := SplitLines(s[1..]);
      var r := SplitLines(s);
      forall k | 0 <= k < |r|
        ensures '\r' !in r[k] && '\n' !in r[k]
      {
        if k > 0 {
          assert r[k] == rest[k];
        }
      }
    }
  }

  /** Lines free of line breaks stay free after an empty line is put first. */
  lemma BreakFreeCons(rest: seq<string>)
    requires BreakFree(rest)
    ensures BreakFree([[]] + rest)
  {
    var r := [[]] + rest;
    forall k | 0 <= k < |r|
      ensures '\r' !in r[k] && '\n' !in r[k]
    {
      if k > 0 {
        assert r[k] == rest[k - 1];
      }
    }
  }

  /** The text with every "\r\n" and every other "\r" turned into "\n". */
  function NormalizeLineBreaks(s: string): string
    decreases |s|
  {
    if s == [] then []
    else if |s| >= 2 && s[0] == '\r' && s[1] == '\n' then "\n" + NormalizeLineBreaks(s[2..])
    else if s[0] == '\r' then "\n" + NormalizeLineBreaks(s[1..])
    else [s[0]] + NormalizeLineBreaks(s[1..])
  }

  /** Text without carriage returns is already normalized. */
  lemma {:induction false} NormalizeWithoutCarriageReturn(s: string)
    requires '\r' !in s
    ensures NormalizeLineBreaks(s) == s
    decreases |s|
  {
    if s != [] {
      NormalizeWithoutCarriageReturn(s[1..]);
      assert [s[0]] + s[1..] == s;
    }
  }

  /** The lines joined by "\n" give the normalized text. */
  lemma {:induction false} JoinSplitLines(s: string)
    ensures Join(SplitLines(s), '\n') == NormalizeLineBreaks(s)
    decreases |s|
  {
    if s == [] {
    } else if |s| >= 2 && s[0] == '\r' && s[1] == '\n' {
      JoinSplitLines(s[2..]);
      JoinEmptyFirst(SplitLines(s[2..]), '\n');
    } else if IsLineBreak(s[0]) {
      JoinSplitLines(s[1..]);
      JoinEmptyFirst(SplitLines(s[1..]), '\n');
    } else {
      JoinSplitLines(s[1..]);
      JoinExtendFirst(s[0], SplitLines(s[1..]), '\n');
    }
  }

  /** Splitting on the three line breaks is splitting the normalized text on
      "\n". */
  lemma SplitLinesIsSplitOnLineFeed(s: string)
    ensures SplitLines(s) == SplitOn(NormalizeLineBreaks(s), '\n')
  {
    JoinSplitLines(s);
    SplitLinesHaveNoBreak(s);
    SplitJoin(SplitLines(s), '\n');
  }

  /** Select(s => s.Trim()).Where(s => s.Length > 0): the trimmed lines that are
      not empty, in order. */
  function TrimmedNonEmpty(lines: seq<string>): seq<string> {
    if lines == [] then []
    else
      var t := Trim(lines[0]);
      (if t == [] then [] else [t]) + TrimmedNonEmpty(lines[1..])
  }

  /** A line with no whitespace at either end. */
  predicate IsTrimmedLine(p: string) {
    p != [] && !IsWhiteSpace(p[0]) && !IsWhiteSpace(p[|p| - 1])
  }

  /** Every line has no whitespace at either end. */
  predicate AllTrimmedLines(lines: seq<string>) {
    forall k :: 0 <= k < |lines| ==> IsTrimmedLine(lines[k])
  }

  /** At most one kept line per line, and every kept line is non-empty with no
      whitespace at either end. */
  lemma {:induction false} TrimmedNonEmptySpec(lines: seq<string>)
    ensures |TrimmedNonEmpty(lines)| <= |lines|
    ensures AllTrimmedLines(TrimmedNonEmpty(lines))
  {
    if lines != [] {
      TrimmedNonEmptySpec(lines[1..]);
      var t := Trim(lines[0]);
      var rest := TrimmedNonEmpty(lines[1..]);
      var r := TrimmedNonEmpty(lines);
      if t == [] {
        assert r == rest;
      } else {
        assert IsTrimmedLine(t);
        assert r == [t] + rest;
        forall k | 0 <= k < |r|
          ensures IsTrimmedLine(r[k])
        {
          if k > 0 {
            assert r[k] == rest[k - 1];
          }
        }
      }
    }
  }

  /** The lines of a concatenation are the lines of the first part followed by
      those of the second: order is kept. */
  lemma {:induction false} TrimmedNonEmptyConcat(a: seq<string>, b: seq<string>)
    ensures TrimmedNonEmpty(a + b) == TrimmedNonEmpty(a) + TrimmedNonEmpty(b)
  {
    if a != [] {
      assert (a + b)[0] == a[0] && (a + b)[1..] == a[1..] + b;
      TrimmedNonEmptyConcat(a[1..], b);
      var t := Trim(a[0]);
      var first := if t == [] then [] else [t];
      assert TrimmedNonEmpty(a + b) == first + TrimmedNonEmpty(a[1..] + b);
      assert TrimmedNonEmpty(a) == first + TrimmedNonEmpty(a[1..]);
    } else {
      assert a + b == b;
    }
  }

  /** A line is kept, trimmed, exactly when it is not blank. */
  lemma TrimmedNonEmptyOne(line: string)
    ensures TrimmedNonEmpty([line]) == if IsBlank(line) then [] else [Trim(line)]
  {
    assert [line][1..] == [];
  }

  /** The proxies in the content of the proxy file. */
  function ParseProxies(text: string): seq<string> {
    TrimmedNonEmpty(SplitLines(text))
  }

  /** No proxy is empty, has whitespace at either end or holds a line break. */
  lemma ParseProxiesClean(text: string)
    ensures forall p :: p in ParseProxies(text) ==> p != [] && Trim(p) == p
    ensures BreakFree(ParseProxies(text))
  {
    var lines := SplitLines(text);
    TrimmedNonEmptySpec(lines);
    SplitLinesHaveNoBreak(text);
    TrimmedNonEmptyKeepsFree(lines);
    TrimmedLinesAreOwnTrim(ParseProxies(text));
  }

  /** Lines with no whitespace at either end are their own trim. */
  lemma TrimmedLinesAreOwnTrim(r: seq<string>)
    requires AllTrimmedLines(r)
    ensures forall p :: p in r ==> p != [] && Trim(p) == p
  {
    forall p | p in r
      ensures p != [] && Trim(p) == p
    {
      var k :| 0 <= k < |r| && r[k] == p;
      TrimOfTrimmed(p);
    }
  }

  /** Trimming adds no character: lines free of line breaks stay free. */
  lemma {:induction false} TrimmedNonEmptyKeepsFree(lines: seq<string>)
    requires BreakFree(lines)
    ensures BreakFree(TrimmedNonEmpty(lines))
  {
    if lines != [] {
      TrimmedNonEmptyKeepsFree(lines[1..]);
      var rest := TrimmedNonEmpty(lines[1..]);
      var t := Trim(lines[0]);
      TrimAvoids(lines[0], '\r');
      TrimAvoids(lines[0], '\n');
      var r := TrimmedNonEmpty(lines);
      if t != [] {
        assert r == [t] + rest;
        forall k | 0 <= k < |r|
          ensures '\r' !in r[k] && '\n' !in r[k]
        {
          if k > 0 {
            assert r[k] == rest[k - 1];
          }
        }
      } else {
        assert r == rest;
      }
    }
  }

  /** Proxies written one per line, each non-empty, without whitespace at
      either end and without line breaks, are read back as they were written. */
  lemma ParseProxiesRoundTrip(proxies: seq<string>)
    requires proxies != []
    requires AllTrimmedLines(proxies)
    requires BreakFree(proxies)
    ensures ParseProxies(Join(proxies, '\n')) == proxies
  {
    var text := Join(proxies, '\n');
    JoinAvoids(proxies, '\n', '\r');
    NormalizeWithoutCarriageReturn(text);
    SplitLinesIsSplitOnLineFeed(text);
    SplitJoin(proxies, '\n');
    TrimmedNonEmptyOfTrimmed(proxies);
  }

  /** Lines that are non-empty and their own trim are all kept, unchanged. */
  lemma {:induction false} TrimmedNonEmptyOfTrimmed(lines: seq<string>)
    requires AllTrimmedLines(lines)
    ensures TrimmedNonEmpty(lines) == lines
  {
    if lines != [] {
      AllTrimmedTail(lines);
      TrimmedNonEmptyOfTrimmed(lines[1..]);
      KeepTrimmedFirst(lines);
    }
  }

  /** The lines after the first of trimmed lines are trimmed. */
  lemma AllTrimmedTail(lines: seq<string>)
    requires lines != [] && AllTrimmedLines(lines)
    ensures IsTrimmedLine(lines[0]) && AllTrimmedLines(lines[1..])
  {
    var rest := lines[1..];
    forall k | 0 <= k < |rest|
      ensures IsTrimmedLine(rest[k])
    {
      assert rest[k] == lines[k + 1];
    }
  }

  /** A trimmed first line is kept as it is. */
  lemma KeepTrimmedFirst(lines: seq<string>)
    requires lines != [] && IsTrimmedLine(lines[0])
    ensures TrimmedNonEmpty(lines) == [lines[0]] + TrimmedNonEmpty(lines[1..])
  {
    TrimOfTrimmed(lines[0]);
  }

  /** A join holds a character other than the separator only if a line does. */
  lemma {:induction false} JoinAvoids(lines: seq<string>, sep: char, c: char)
    requires c != sep
    requires forall k :: 0 <= k < |lines| ==> c !in lines[k]
    ensures c !in Join(lines, sep)
  {
    if |lines| > 1 {
      JoinAvoids(lines[1..], sep, c);
    }
  }

  /** LoadProxiesAsync: no proxies without a file, else the proxies in it. */
  function LoadProxies(file: Option<string>): seq<string> {
    match file
    case None => []
    case Some(text) => ParseProxies(text)
  }

  /** LoadPromptAsync: the empty prompt without a file, else its whole content. */
  function LoadPrompt(file: Option<string>): string {
    match file
    case None => ""
    case Some(text) => text
  }

  /** The missing-file defaults: an empty array of proxies and the empty
      prompt; an existing file is read whole for the prompt. */
  lemma LoadDefaults(file: Option<string>)
    ensures file.None? ==> LoadProxies(file) == [] && LoadPrompt(file) == ""
    ensures file.Some? ==> LoadProxies(file) == ParseProxies(file.value) && LoadPrompt(file) == file.value
  {
  }
}
