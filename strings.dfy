/**
 * The few operations of .NET's System.String that the modelled code relies on,
 * over strings as sequences of characters: char.IsWhiteSpace, Trim, TrimStart,
 * TrimEnd, IsNullOrWhiteSpace, ordinal Contains and Replace, string.Join with a
 * one-character separator and Split on one character.
 */
module Strings {

  /** char.IsWhiteSpace: U+0009..U+000D, U+0085 and the Unicode categories
      SpaceSeparator, LineSeparator and ParagraphSeparator. */
  predicate IsWhiteSpace(c: char) {
    || ('\t' <= c <= '\r')
    || c == ' '
    || c == '\U{0085}'
    || c == '\U{00A0}'
    || c == '\U{1680}'
    || ('\U{2000}' <= c <= '\U{200A}')
    || c == '\U{2028}'
    || c == '\U{2029}'
    || c == '\U{202F}'
    || c == '\U{205F}'
    || c == '\U{3000}'
  }

  /** string.IsNullOrWhiteSpace for a non-null string: empty or whitespace only. */
  predicate IsBlank(s: string) {
    forall i :: 0 <= i < |s| ==> IsWhiteSpace(s[i])
  }

  /** A slice is blank exactly when each of its characters is whitespace. */
  lemma BlankSlice(s: string, i: int)
    requires 0 <= i <= |s|
    ensures IsBlank(s[i..]) <==> forall j :: i <= j < |s| ==> IsWhiteSpace(s[j])
  {
    assert forall j :: i <= j < |s| ==> s[i..][j - i] == s[j];
  }

  /** TrimStart(): the suffix left after dropping leading whitespace. */
  function TrimStart(s: string): (r: string)
    ensures |r| <= |s| && r == s[|s| - |r|..]
    ensures r == [] || !IsWhiteSpace(r[0])
    ensures IsBlank(s[..|s| - |r|])
  {
    if s != [] && IsWhiteSpace(s[0]) then
      var r := TrimStart(s[1..]);
      assert s[..|s| - |r|] == [s[0]] + s[1..][..|s| - 1 - |r|];
      r
    else
      s
  }

  /** TrimEnd(): the prefix left after dropping trailing whitespace. */
  function TrimEnd(s: string): (r: string)
    ensures |r| <= |s| && r == s[..|r|]
    ensures r == [] || !IsWhiteSpace(r[|r| - 1])
    ensures IsBlank(s[|r|..])
  {
    if s != [] && IsWhiteSpace(s[|s| - 1]) then
      var r := TrimEnd(s[..|s| - 1]);
      assert s[|r|..] == s[..|s| - 1][|r|..] + [s[|s| - 1]];
      r
    else
      s
  }

  /** Trim(): TrimStart, then TrimEnd. */
  function Trim(s: string): (r: string)
    ensures |r| <= |s|
    ensures r == [] <==> IsBlank(s)
    ensures r != [] ==> !IsWhiteSpace(r[0]) && !IsWhiteSpace(r[|r| - 1])
  {
    var t := TrimStart(s);
    var r := TrimEnd(t);
    assert t != [] ==> !IsWhiteSpace(s[|s| - |t|]);
    assert t == [] ==> s[..|s|] == s;
    r
  }

  /** A string with no whitespace at either end is its own Trim. */
  lemma TrimOfTrimmed(s: string)
    requires s == [] || (!IsWhiteSpace(s[0]) && !IsWhiteSpace(s[|s| - 1]))
    ensures Trim(s) == s
  {
  }

  /** Trim is idempotent. */
  lemma TrimIdempotent(s: string)
    ensures Trim(Trim(s)) == Trim(s)
  {
    TrimOfTrimmed(Trim(s));
  }

  /** Trim keeps a contiguous middle part r of s, starting where TrimStart's
      result t starts; what it drops in front and behind is whitespace. */
  lemma TrimKeepsMiddle(s: string, t: string, r: string)
    requires t == TrimStart(s) && r == Trim(s)
    ensures var a := |s| - |t|;
      && a + |r| <= |s| && r == s[a..a + |r|]
      && IsBlank(s[..a]) && IsBlank(s[a + |r|..])
  {
    assert r == TrimEnd(t);
    MiddleOf(s, t, r);
  }

  /** A blank-led suffix t of s, and a prefix r of t followed by blanks:
      r sits in s between two blank parts. */
  lemma MiddleOf(s: string, t: string, r: string)
    requires |t| <= |s| && t == s[|s| - |t|..] && IsBlank(s[..|s| - |t|])
    requires |r| <= |t| && r == t[..|r|] && IsBlank(t[|r|..])
    ensures var a := |s| - |t|;
      && a + |r| <= |s| && r == s[a..a + |r|]
      && IsBlank(s[..a]) && IsBlank(s[a + |r|..])
  {
    var a := |s| - |t|;
    assert t[|r|..] == s[a + |r|..];
  }

  /** Trim adds no character: one not in s is not in Trim(s). */
  lemma TrimAvoids(s: string, c: char)
    requires c !in s
    ensures c !in Trim(s)
  {
    var t := TrimStart(s);
    assert c !in t by {
      forall k | 0 <= k < |t|
        ensures t[k] != c
      {
        assert t[k] == s[|s| - |t| + k];
      }
    }
    var r := TrimEnd(t);
    assert Trim(s) == r;
    forall k | 0 <= k < |r|
      ensures r[k] != c
    {
      assert r[k] == t[k];
    }
  }

  /** s[i..i + |sub|] == sub: an occurrence of sub at position i. */
  predicate OccursAt(s: string, sub: string, i: int) {
    0 <= i && i + |sub| <= |s| && s[i..i + |sub|] == sub
  }

  /** Ordinal string.Contains(sub). */
  function Contains(s: string, sub: string): (b: bool)
    ensures b <==> exists i :: OccursAt(s, sub, i)
    decreases |s|
  {
    if |sub| <= |s| && s[..|sub|] == sub then
      assert OccursAt(s, sub, 0);
      true
    else if s == [] then
      false
    else
      var b := Contains(s[1..], sub);
      OccursInTail(s, sub);
      b
  }

  /** When the pattern does not start s, it occurs in s exactly when it occurs
      in s without its first character. */
  lemma OccursInTail(s: string, sub: string)
    requires s != [] && !(|sub| <= |s| && s[..|sub|] == sub)
    ensures (exists i :: OccursAt(s, sub, i)) <==> (exists i :: OccursAt(s[1..], sub, i))
  {
    if exists i :: OccursAt(s[1..], sub, i) {
      var i :| OccursAt(s[1..], sub, i);
      assert s[i + 1..i + 1 + |sub|] == s[1..][i..i + |sub|];
      assert OccursAt(s, sub, i + 1);
    }
    if exists i :: OccursAt(s, sub, i) {
      var i :| OccursAt(s, sub, i);
      assert i != 0;
      assert s[1..][i - 1..i - 1 + |sub|] == s[i..i + |sub|];
      assert OccursAt(s[1..], sub, i - 1);
    }
  }

  /** string.Join(sep, lines) for a one-character separator. */
  function Join(lines: seq<string>, sep: char): string {
    if |lines| == 0 then []
    else if |lines| == 1 then lines[0]
    else lines[0] + [sep] + Join(lines[1..], sep)
  }

  /** Joining one more line at the end adds the separator and the line. */
  lemma {:induction false} JoinSnoc(lines: seq<string>, line: string, sep: char)
    requires lines != []
    ensures Join(lines + [line], sep) == Join(lines, sep) + [sep] + line
  {
    if |lines| == 1 {
      assert lines + [line] == [lines[0], line];
    } else {
      assert (lines + [line])[1..] == lines[1..] + [line];
      JoinSnoc(lines[1..], line, sep);
    }
  }

  /** An empty first line adds just a separator in front. */
  lemma JoinEmptyFirst(lines: seq<string>, sep: char)
    requires lines != []
    ensures Join([[]] + lines, sep) == [sep] + Join(lines, sep)
  {
    assert ([[]] + lines)[1..] == lines;
  }

  /** A character put in front of the first line is put in front of the join. */
  lemma JoinExtendFirst(c: char, lines: seq<string>, sep: char)
    requires lines != []
    ensures Join([[c] + lines[0]] + lines[1..], sep) == [c] + Join(lines, sep)
  {
    var r := [[c] + lines[0]] + lines[1..];
    if |lines| > 1 {
      assert r[1..] == lines[1..];
      assert Join(r, sep) == ([c] + lines[0]) + [sep] + Join(lines[1..], sep);
    }
  }

  /** s.Split(c): the pieces of s between occurrences of c; never empty. */
  function SplitOn(s: string, c: char): (r: seq<string>)
    ensures |r| >= 1
    ensures forall k :: 0 <= k < |r| ==> c !in r[k]
    ensures Join(r, c) == s
    decreases |s|
  {
    if s == [] then [[]]
    else
      var rest := SplitOn(s[1..], c);
      if s[0] == c then
        assert Join([[]] + rest, c) == [c] + Join(rest, c);
        assert s == [s[0]] + s[1..];
        [[]] + rest
      else
        var r := [[s[0]] + rest[0]] + rest[1..];
        assert Join(r, c) == [s[0]] + Join(rest, c) by {
          if |rest| > 1 {
            assert r[1..] == rest[1..];
            assert Join(r, c) == ([s[0]] + rest[0]) + [c] + Join(rest[1..], c);
          }
        }
        assert s == [s[0]] + s[1..];
        r
  }

  /** The position of the first c in s, or |s| when there is none. */
  function IndexOf(s: string, c: char): (i: nat)
    ensures i <= |s|
    ensures i < |s| ==> s[i] == c
    ensures forall k :: 0 <= k < i ==> s[k] != c
  {
    if s == [] || s[0] == c then 0 else 1 + IndexOf(s[1..], c)
  }

  /** In a join of separator-free lines, the first separator ends the first line. */
  lemma {:induction false} JoinFirstLine(lines: seq<string>, c: char)
    requires |lines| >= 1
    requires forall k :: 0 <= k < |lines| ==> c !in lines[k]
    ensures var j := Join(lines, c);
      && IndexOf(j, c) == |lines[0]|
      && j[..|lines[0]|] == lines[0]
      && (|lines| == 1 <==> |lines[0]| == |j|)
      && (|lines| > 1 ==> j[|lines[0]| + 1..] == Join(lines[1..], c))
  {
    var j := Join(lines, c);
    var first := lines[0];
    assert forall k :: 0 <= k < |first| ==> j[k] == first[k] && j[k] != c;
    if |lines| > 1 {
      assert j == first + [c] + Join(lines[1..], c);
      assert j[|first|] == c;
      assert j[|first| + 1..] == Join(lines[1..], c);
    }
  }

  /** Join is injective on lists of lines free of the separator. */
  lemma {:induction false} JoinInjective(a: seq<string>, b: seq<string>, c: char)
    requires |a| >= 1 && |b| >= 1
    requires forall k :: 0 <= k < |a| ==> c !in a[k]
    requires forall k :: 0 <= k < |b| ==> c !in b[k]
    requires Join(a, c) == Join(b, c)
    ensures a == b
    decreases |a|
  {
    JoinFirstLine(a, c);
    JoinFirstLine(b, c);
    // the first lines are equally long, so equal, and the rests join equally
    if |a| > 1 {
      JoinInjective(a[1..], b[1..], c);
      assert a == [a[0]] + a[1..] && b == [b[0]] + b[1..];
    }
  }

  /** Splitting a join gives back the lines when none contains the separator. */
  lemma SplitJoin(lines: seq<string>, c: char)
    requires |lines| >= 1
    requires forall k :: 0 <= k < |lines| ==> c !in lines[k]
    ensures SplitOn(Join(lines, c), c) == lines
  {
    JoinInjective(SplitOn(Join(lines, c), c), lines, c);
  }

  /** s.IndexOfAny(chars): the position of the first character of s in chars,
      or -1 when there is none. */
  function IndexOfAny(s: string, chars: set<char>): (i: int)
    ensures -1 <= i < |s|
    ensures i >= 0 ==> s[i] in chars
    ensures forall k :: 0 <= k < |s| && (i == -1 || k < i) ==> s[k] !in chars
  {
    if s == [] then -1
    else if s[0] in chars then 0
    else
      var j := IndexOfAny(s[1..], chars);
      if j == -1 then -1 else j + 1
  }

  /** Ordinal string.Replace(pattern, replacement): occurrences found left to
      right and not overlapping. */
  function Replace(s: string, pattern: string, replacement: string): string
    requires |pattern| > 0
    decreases |s|
  {
    if |s| < |pattern| then s
    else if s[..|pattern|] == pattern then replacement + Replace(s[|pattern|..], pattern, replacement)
    else [s[0]] + Replace(s[1..], pattern, replacement)
  }

  /** Replacing one character by another maps the string character by character. */
  lemma {:induction false} ReplaceChar(s: string, from: char, to: char)
    ensures var r := Replace(s, [from], [to]);
      |r| == |s| && forall i :: 0 <= i < |s| ==> r[i] == if s[i] == from then to else s[i]
    decreases |s|
  {
    if s != [] {
      ReplaceChar(s[1..], from, to);
    }
  }

  /** An occurrence of the pattern after text that cannot start one is
      replaced, and the replacing goes on after it. */
  lemma {:induction false} ReplaceAfterPrefix(a: string, pattern: string, replacement: string, rest: string)
    requires |pattern| > 0 && pattern[0] !in a
    ensures Replace(a + pattern + rest, pattern, replacement) == a + replacement + Replace(rest, pattern, replacement)
    decreases |a|
  {
    var s := a + pattern + rest;
    if a == [] {
      assert s == pattern + rest;
      assert s[..|pattern|] == pattern && s[|pattern|..] == rest;
    } else {
      assert s[0] == a[0] && a[0] != pattern[0];
      assert s[..|pattern|] != pattern by {
        assert s[..|pattern|][0] == a[0];
      }
      assert Replace(s, pattern, replacement) == [a[0]] + Replace(s[1..], pattern, replacement);
      assert s[1..] == a[1..] + pattern + rest;
      ReplaceAfterPrefix(a[1..], pattern, replacement, rest);
      assert [a[0]] + (a[1..] + replacement + Replace(rest, pattern, replacement)) == a + replacement + Replace(rest, pattern, replacement);
    }
  }

  /** Replacing one character distributes over concatenation. */
  lemma ReplaceCharConcat(x: string, y: string, from: char, to: char)
    ensures Replace(x + y, [from], [to]) == Replace(x, [from], [to]) + Replace(y, [from], [to])
  {
    ReplaceChar(x + y, from, to);
    ReplaceChar(x, from, to);
    ReplaceChar(y, from, to);
  }

  /** A string without the first character of the pattern is left as it is. */
  lemma {:induction false} ReplaceAbsent(s: string, pattern: string, replacement: string)
    requires |pattern| > 0 && pattern[0] !in s
    ensures Replace(s, pattern, replacement) == s
    decreases |s|
  {
    if |s| >= |pattern| {
      assert s[..|pattern|][0] == s[0];
      ReplaceAbsent(s[1..], pattern, replacement);
      assert [s[0]] + s[1..] == s;
    }
  }
}
