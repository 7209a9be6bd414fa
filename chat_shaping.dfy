/**
 * The pure text helpers of AiChatService: BuildHistoryText, which renders the
 * recent messages of a chat as "Sender: text" lines, TruncateKeepTail, which
 * keeps the end of an over-long history, and the reply filter of QueryAsync.
 */
module ChatShaping {
  import opened Wrappers
  import opened Strings

  /** Message text longer than this is cut. */
  const MaxMessageChars := 500
  /** The ellipsis put after a cut message text. */
  const Ellipsis := "…"
  /** MAX_HISTORY_CHARS of ReplyMessageWithAi. */
  const MaxHistoryChars := 7000
  /** TruncateKeepTail moves the start of the tail past a boundary character
      found before this position. */
  const BoundaryReach := 64
  /** The characters TruncateKeepTail takes as word boundaries. */
  const Boundaries: set<char> := {' ', '\n', '\r', '\t'}

  /** A message of the chat history: who sent it (from_id) and its text. */
  datatype HistoryMessage = HistoryMessage(fromId: int, text: string)

  // ---------------------------------------------------------------------------
  // BuildHistoryText

  /** "Me" for the logged-in user's own messages, "Contact" for the others. */
  function SenderLabel(fromId: int, selfId: int): string {
    if fromId == selfId then "Me" else "Contact"
  }

  /** Replace("\r\n", " ") then Replace("\n", " "). */
  function Flatten(text: string): string {
    Replace(Replace(text, "\r\n", " "), "\n", " ")
  }

  /** No line feed is left after flattening. */
  lemma FlattenHasNoLineFeed(text: string)
    ensures '\n' !in Flatten(text)
  {
    var once := Replace(text, "\r\n", " ");
    ReplaceChar(once, '\n', ' ');
    var r := Flatten(text);
    forall i | 0 <= i < |r|
      ensures r[i] != '\n'
    {
    }
  }

  /** Text without carriage returns is flattened character by character: each
      line feed becomes one space, nothing else changes. */
  lemma FlattenWithoutCarriageReturn(text: string)
    requires '\r' !in text
    ensures var r := Flatten(text);
      |r| == |text| && forall i :: 0 <= i < |text| ==> r[i] == if text[i] == '\n' then ' ' else text[i]
  {
    ReplaceAbsent(text, "\r\n", " ");
    ReplaceChar(text, '\n', ' ');
  }

  /** A "\r\n" becomes one space: text up to the first line break, the pair,
      and the rest flatten to the flattened parts around one space. */
  lemma FlattenCrLf(a: string, b: string)
    requires '\r' !in a
    ensures Flatten(a + "\r\n" + b) == Flatten(a) + " " + Flatten(b)
  {
    ReplaceAfterPrefix(a, "\r\n", " ", b);
    ReplaceAbsent(a, "\r\n", " ");
    var rest := Replace(b, "\r\n", " ");
    ReplaceCharConcat(a + " ", rest, '\n', ' ');
    ReplaceCharConcat(a, " ", '\n', ' ');
    ReplaceAbsent(" ", "\n", " ");
  }

  /** Text over MaxMessageChars is cut to its first MaxMessageChars characters
      and the ellipsis. */
  function Shorten(text: string): string {
    if |text| > MaxMessageChars then text[..MaxMessageChars] + Ellipsis else text
  }

  /** Shortening keeps short text, keeps the start of long text, and never
      adds a line feed. */
  lemma ShortenSpec(text: string)
    ensures var r := Shorten(text);
      && |r| <= MaxMessageChars + 1
      && (|text| <= MaxMessageChars ==> r == text)
      && (|text| > MaxMessageChars ==> r[..MaxMessageChars] == text[..MaxMessageChars] && r[MaxMessageChars..] == Ellipsis)
      && ('\n' !in text ==> '\n' !in r)
  {
    if |text| > MaxMessageChars {
      var r := Shorten(text);
      assert r == text[..MaxMessageChars] + Ellipsis;
      assert forall i :: 0 <= i < MaxMessageChars ==> r[i] == text[i];
    }
  }

  /** The line of one message: "Sender: text", the text flattened and shortened. */
  function HistoryLine(m: HistoryMessage, selfId: int): string {
    SenderLabel(m.fromId, selfId) + ": " + Shorten(Flatten(m.text))
  }

  /** A history line holds no line feed, and is at most 510 characters long. */
  lemma HistoryLineSpec(m: HistoryMessage, selfId: int)
    ensures var line := HistoryLine(m, selfId);
      '\n' !in line && |line| <= |"Contact: "| + MaxMessageChars + 1
  {
    FlattenHasNoLineFeed(m.text);
    ShortenSpec(Flatten(m.text));
    var sender := SenderLabel(m.fromId, selfId);
    var body := Shorten(Flatten(m.text));
    var line := HistoryLine(m, selfId);
    assert line == sender + ": " + body;
    forall i | 0 <= i < |line|
      ensures line[i] != '\n'
    {
      if i >= |sender| + 2 {
        assert line[i] == body[i - |sender| - 2];
      }
    }
  }

  /** A short message without line breaks is shown verbatim after its sender. */
  lemma HistoryLineVerbatim(m: HistoryMessage, selfId: int)
    requires '\r' !in m.text && '\n' !in m.text && |m.text| <= MaxMessageChars
    ensures HistoryLine(m, selfId) == SenderLabel(m.fromId, selfId) + ": " + m.text
  {
    FlattenWithoutCarriageReturn(m.text);
    assert Flatten(m.text) == m.text;
  }

  /** The lines of the messages, in order. */
  function HistoryLines(msgs: seq<HistoryMessage>, selfId: int): (lines: seq<string>)
    ensures |lines| == |msgs|
  {
    seq(|msgs|, i requires 0 <= i < |msgs| => HistoryLine(msgs[i], selfId))
  }

  /** BuildHistoryText: the lines joined by "\n". */
  function BuildHistoryText(msgs: seq<HistoryMessage>, selfId: int): string {
    Join(HistoryLines(msgs, selfId), '\n')
  }

  /** The history has exactly one line per message, in order: splitting it at
      line feeds gives back the message lines. */
  lemma HistoryTextLines(msgs: seq<HistoryMessage>, selfId: int)
    requires msgs != []
    ensures SplitOn(BuildHistoryText(msgs, selfId), '\n') == HistoryLines(msgs, selfId)
  {
    var lines := HistoryLines(msgs, selfId);
    forall k | 0 <= k < |lines|
      ensures '\n' !in lines[k]
    {
      HistoryLineSpec(msgs[k], selfId);
    }
    SplitJoin(lines, '\n');
  }

  /** Without messages the history is empty. */
  lemma HistoryTextEmpty(selfId: int)
    ensures BuildHistoryText([], selfId) == ""
  {
  }

  // ---------------------------------------------------------------------------
  // TruncateKeepTail

  /** TruncateKeepTail(input, maxChars): input when it is empty or short enough;
      otherwise its last maxChars characters, moved past the first boundary
      character when that is found at positions 1 to 63 of the tail. */
  function TruncateKeepTail(input: string, maxChars: int): string
    requires maxChars >= 0
  {
    if |input| == 0 || |input| <= maxChars then input
    else
      var tail := input[|input| - maxChars..];
      var firstWs := IndexOfAny(tail, Boundaries);
      if firstWs > 0 && firstWs < BoundaryReach then tail[firstWs + 1..] else tail
  }

  /** Short input is returned as it is. */
  lemma TruncateShort(input: string, maxChars: int)
    requires maxChars >= 0 && |input| <= maxChars
    ensures TruncateKeepTail(input, maxChars) == input
  {
  }

  /** The result is a suffix of the input of at most maxChars characters; of
      over-long input it keeps at least the last maxChars - 64. */
  lemma TruncateIsShortSuffix(input: string, maxChars: int)
    requires maxChars >= 0
    ensures var r := TruncateKeepTail(input, maxChars);
      && |r| <= |input| && |r| <= maxChars
      && r == input[|input| - |r|..]
      && (|input| > maxChars ==> |r| >= maxChars - BoundaryReach)
  {
    if |input| > maxChars {
      var tail := input[|input| - maxChars..];
      var firstWs := IndexOfAny(tail, Boundaries);
      if firstWs > 0 && firstWs < BoundaryReach {
        assert tail[firstWs + 1..] == input[|input| - maxChars + firstWs + 1..];
      }
    }
  }

  /** Where an over-long input is cut: when the tail was shortened, it now
      starts just after the first boundary character of the tail, which was
      not its first character; when it was not, the tail starts with a boundary
      character or has none at positions 1 to 63. */
  lemma TruncateCut(input: string, maxChars: int)
    requires 0 < maxChars < |input|
    ensures var r := TruncateKeepTail(input, maxChars);
      var start := |input| - maxChars;
      var cut := |input| - |r| - 1;
      && (|r| < maxChars ==>
            && start < cut && input[cut] in Boundaries
            && forall k :: start <= k < cut ==> input[k] !in Boundaries)
      && (|r| == maxChars ==>
            || input[start] in Boundaries
            || forall k :: start < k < start + BoundaryReach && k < |input| ==> input[k] !in Boundaries)
  {
    TruncateIsShortSuffix(input, maxChars);
    var start := |input| - maxChars;
    var tail := input[start..];
    assert forall k :: 0 <= k < maxChars ==> tail[k] == input[start + k];
  }

  /** The history handed to the model: the history text of the messages, or the
      empty string without messages, truncated to MaxHistoryChars. */
  function HistoryContext(msgs: seq<HistoryMessage>, selfId: int): string {
    var historyText := if |msgs| > 0 then BuildHistoryText(msgs, selfId) else "";
    TruncateKeepTail(historyText, MaxHistoryChars)
  }

  /** The history context never exceeds MaxHistoryChars and ends the history. */
  lemma HistoryContextBound(msgs: seq<HistoryMessage>, selfId: int)
    ensures var c := HistoryContext(msgs, selfId); var h := BuildHistoryText(msgs, selfId);
      |c| <= MaxHistoryChars && |c| <= |h| && c == h[|h| - |c|..]
  {
    TruncateIsShortSuffix(BuildHistoryText(msgs, selfId), MaxHistoryChars);
  }

  // ---------------------------------------------------------------------------
  // The reply filter of QueryAsync

  /** QueryAsync's answer from the outcome of the request: null (None) when the
      request failed, or its result is null, blank, or contains ".com" or
      "https://"; otherwise the result. */
  function FilterReply(isSuccessful: bool, result: Option<string>): Option<string> {
    if !isSuccessful || result.None? || IsBlank(result.value)
       || Contains(result.value, ".com") || Contains(result.value, "https://")
    then None
    else result
  }

  /** A reply is passed on exactly when the request succeeded with a result
      that is not blank and has no occurrence of ".com" or "https://". */
  lemma FilterReplySpec(isSuccessful: bool, result: Option<string>, reply: string)
    ensures FilterReply(isSuccessful, result) == Some(reply) <==>
      && isSuccessful && result == Some(reply)
      && (exists i :: 0 <= i < |reply| && !IsWhiteSpace(reply[i]))
      && (forall i :: !OccursAt(reply, ".com", i))
      && (forall i :: !OccursAt(reply, "https://", i))
  {
  }
}
