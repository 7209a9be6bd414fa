# Telegram.User.Net: the message aggregator, the AI rate limiter and the text helpers, in Dafny

Telegram.User.Net is a Telegram self-bot that answers private messages with an
AI model. This project models three parts of it and proves what they promise.

- **The debounced message aggregator** (`Utilities/Ai.cs`), in module
  `MessageAggregation`. A contact often sends one thought as several short
  messages. `MessageAggregator.HandleIncomingMessageAsync` works as follows:
  - it ignores blank text;
  - it appends the trimmed fragment to the user's `UserMessageBuffer`, with a
    space as separator when needed;
  - it caps the buffer at 5000 characters;
  - it cancels the previous debounce task and starts a fresh 4-second one;
  - it flushes at once when the fragment ends a sentence.

  `FlushBufferAsync` hands the trimmed buffer to the AI handler exactly once
  and then drops the entry. `DisposeAll` cancels every buffer and clears the
  dictionary.

  The model is sequential:
  - `MessageAggregator` and `UserMessageBuffer` are classes with the source's
    fields, and their methods update those fields in place;
  - each method is proved against a function on values (`Submit`, `Arm`,
    `Flush`, `Elapse`, `Disposed`);
  - a debounce task whose delay has run out is the event `TimerElapsed`;
  - a `CancellationTokenSource` is a token number, and cancelling it puts the
    number in the set `cancelled`;
  - calls of the AI handler are recorded in the log `calls`, together with
    what the handler did. The aggregator ignores that, so a handler that
    throws changes nothing else.
- **The sliding-window rate limiter** of `Services/AiChatService.cs`, in
  module `RateLimiting`. `TryAcquireSlot` works in three steps:
  - it dequeues timestamps older than 60 minutes;
  - it refuses within 60 seconds of the last success, or when 60 timestamps
    remain;
  - otherwise it enqueues the current time.

  The class `RateLimiter` keeps the queue and `_lastSuccess` as fields. Its
  loop is proved against the function `Acquire`. Over any run of calls with a
  clock that does not go back, the model proves three things:
  - granted requests are at least 60 seconds apart;
  - no 60-minute span ending at a grant holds more than 60 grants;
  - the queue holds exactly the grants of the last 60 minutes, oldest first.
- **The text helpers** of `Services/AiChatService.cs` (module
  `ChatShaping`) and `Services/ConfigurationService.cs` (module
  `Configuration`):
  - `BuildHistoryText` renders the chat history as one `Me: ...` or
    `Contact: ...` line per message;
  - `TruncateKeepTail` keeps the end of an over-long history;
  - the reply filter of `QueryAsync` drops failed, blank and link-bearing
    replies;
  - `LoadProxiesAsync` parses the proxy list, and `LoadProxiesAsync` and
    `LoadPromptAsync` return defaults for a missing file.

Supporting modules:
- `Strings` holds the .NET string operations the code relies on:
  `char.IsWhiteSpace`, `Trim`, `string.IsNullOrWhiteSpace`, ordinal
  `Contains` and `Replace`, `IndexOfAny`, `string.Join` and `Split`.
- `Clock` holds time in `DateTime` ticks (10,000,000 per second); the time is
  a parameter of every operation.
- `Wrappers` holds `Option`.

Where the source's comments and its code disagree, the model follows the code:

- `AiChatService.cs:83` says the first rule waits 2 minutes, but line 84
  compares with 60 seconds. The model uses 60 seconds (`RateLimiting.Cooldown`).
- The eviction loop (`AiChatService.cs:78-81`) runs before both rules. A
  refused call therefore still drops the expired timestamps (`AcquireSpec`).
- `TruncateKeepTail` skips to the first boundary only when it sits at
  positions 1 to 63 of the tail (`firstWs > 0`, `AiChatService.cs:153`). A
  tail that starts with whitespace keeps it (`TruncateCut`).
- Only `' '`, `'\n'`, `'\r'` and `'\t'` count as boundaries in
  `TruncateKeepTail` (`AiChatService.cs:152`). This differs from the
  `char.IsWhiteSpace` used by `Trim` everywhere else.
- On overflow the buffer keeps its first 5000 characters (`Ai.cs:57-58`). The
  newest text is what is lost (`AccumulateIsCappedJoin`).
- A flush that captures only whitespace clears the buffer but leaves the entry
  in `Buffers`. The removal at `Ai.cs:134-137` is only reached after the
  handler ran. In sequential runs this path cannot occur. Every entry holds text
  and a live timer between operations (`Settled`), and every stored buffer
  starts with a non-whitespace character (`Consistent`), so its trim is never
  empty.

## Model

| member | source | states |
|---|---|---|
| MessageAggregation.AppendFragment | Telegram.User.Net/Utilities/Ai.cs:52-58 | the buffer after one fragment: the separator, the trimmed fragment, then the cut to 5000 characters; AppendFragmentSpec states what this keeps and loses |
| MessageAggregation.Separator | Telegram.User.Net/Utilities/Ai.cs:52-53 | the separator is one space exactly when the buffer is non-empty and its last character is not whitespace, and nothing otherwise |
| MessageAggregation.Cap | Telegram.User.Net/Utilities/Ai.cs:57-58 | the capped buffer is a prefix of the uncapped one and at most 5000 long; it is unchanged when short enough and exactly 5000 long otherwise |
| MessageAggregation.AppendFragmentSpec | Telegram.User.Net/Utilities/Ai.cs:52-58 | appending keeps the old buffer when it was within the cap, yields buffer+separator+trimmed fragment when that fits, and a prefix of it of length at most 5000 otherwise; a buffer that starts with text keeps starting with text |
| MessageAggregation.EndsWithSentenceTerminator | Telegram.User.Net/Utilities/Ai.cs:143-148 | true exactly when some character is '.', '!', '?' or U+061F and only whitespace follows it; hence false for blank text |
| MessageAggregation.Accumulate | Telegram.User.Net/Utilities/Ai.cs:42-58 | the buffer that fragments build one after another from an empty one, blank fragments skipped; AccumulateIsCappedJoin and AccumulateEmpty say what it holds |
| MessageAggregation.AccumulateEmpty | Telegram.User.Net/Utilities/Ai.cs:42-58 | the accumulated buffer is empty exactly when every fragment is blank |
| MessageAggregation.AccumulateIsCappedJoin | Telegram.User.Net/Utilities/Ai.cs:42-58 | a burst of fragments builds the trimmed non-blank fragments joined by single spaces, cut at 5000 characters |
| MessageAggregation.AppendWord | Telegram.User.Net/Utilities/Ai.cs:52-58 | appending a non-blank fragment to a capped join of words gives the capped join with the trimmed fragment as one more word |
| MessageAggregation.Flush | Telegram.User.Net/Utilities/Ai.cs:96-141 | FlushBufferAsync on values: the entry's CancelSource cancelled, then an empty capture leaves an empty entry and no call, and a non-empty one removes the entry and is handed to the handler; FlushCallsHandlerOnce and FlushPreserves are its properties |
| MessageAggregation.Arm | Telegram.User.Net/Utilities/Ai.cs:46-65 | the locked block on values: get or add the entry, append, cancel its old CancelSource and arm a timer for a fresh token, due 4 seconds later; ArmEffect and ArmPreserves are its properties |
| MessageAggregation.Submit | Telegram.User.Net/Utilities/Ai.cs:36-93 | HandleIncomingMessageAsync on values: blank text changes nothing, other text is armed and flushed at once when it ends a sentence; SubmitEffect and SubmitPreserves are its properties |
| MessageAggregation.Elapse | Telegram.User.Net/Utilities/Ai.cs:68-83 | a debounce task waking: it ends without effect when its token was cancelled, and flushes its user otherwise; ElapseEffect and ElapsePreserves are its properties |
| MessageAggregation.Disposed | Telegram.User.Net/Utilities/Ai.cs:152-158 | DisposeAll on values: every CancelSource cancelled and the store cleared; DisposeAllEffect is its property |
| MessageAggregation.FlushSteps | Telegram.User.Net/Utilities/Ai.cs:102-138 | a flush is: the entry emptied with no CancelSource and its CancelSource cancelled, then the entry removed if the captured text is non-empty |
| MessageAggregation.FlushCallsHandlerOnce | Telegram.User.Net/Utilities/Ai.cs:98-138 | a flush of an absent user changes nothing and calls no handler; an empty capture calls no handler and leaves an empty entry; otherwise the handler gets the trimmed buffer and only that user's entry is gone, every other entry kept; no live timer of the user remains |
| MessageAggregation.FlushPreserves | Telegram.User.Net/Utilities/Ai.cs:96-141 | a flush keeps the store consistent with the debounce tasks, and keeps every entry holding text and a live timer |
| MessageAggregation.AddedPreserves | Telegram.User.Net/Utilities/Ai.cs:46 | GetOrAdd keeps the store consistent |
| MessageAggregation.ArmAfterAdded | Telegram.User.Net/Utilities/Ai.cs:46-65 | appending to the entry GetOrAdd yields is the same as appending to the stored entry or to a new empty one |
| MessageAggregation.ArmPreserves | Telegram.User.Net/Utilities/Ai.cs:49-84 | the locked block keeps the store consistent: buffers within the cap and starting with text, every CancelSource a live timer of its own user, every live timer some entry's CancelSource |
| MessageAggregation.ArmSettles | Telegram.User.Net/Utilities/Ai.cs:49-65 | after the locked block every entry still holds text and a CancelSource |
| MessageAggregation.ArmEffect | Telegram.User.Net/Utilities/Ai.cs:62-65 | the locked block appends to the user's entry, cancels every earlier live timer of the user, and leaves the fresh timer as the user's only live one |
| MessageAggregation.SubmitPreserves | Telegram.User.Net/Utilities/Ai.cs:36-93 | handling a message keeps the store consistent and settled |
| MessageAggregation.SubmitEffect | Telegram.User.Net/Utilities/Ai.cs:42-92 | blank text changes nothing; other text cancels the user's live timers and arms one fresh timer; a sentence end flushes at once, handing the trimmed appended buffer to the handler and removing that entry while every other user's entry stays as it was; otherwise the entry holds the appended buffer and the fresh timer is its only live one |
| MessageAggregation.FinishedPreserves | Telegram.User.Net/Utilities/Ai.cs:68-83 | a debounce task that ends after being cancelled leaves the store consistent |
| MessageAggregation.ElapsePreserves | Telegram.User.Net/Utilities/Ai.cs:68-83 | a debounce task waking up keeps the store consistent |
| MessageAggregation.ElapseEffect | Telegram.User.Net/Utilities/Ai.cs:72-75 | a task whose token was cancelled changes neither the store nor the cancellations and calls no handler; a live one flushes its user, whose CancelSource it is, calling the handler with that user's non-empty trimmed buffer and removing the entry |
| MessageAggregation.DisposeAllEffect | Telegram.User.Net/Utilities/Ai.cs:152-158 | after DisposeAll the store is empty, no timer is live and the state is consistent |
| MessageAggregation.Burst | Telegram.User.Net/Utilities/Ai.cs:36-93 | one user's messages handled one after another with no debounce task waking in between: the state after the last one, and the texts handed to the handler in order |
| MessageAggregation.BurstBuffers | Telegram.User.Net/Utilities/Ai.cs:36-93 | for r the result of a burst with no sentence end, sent to a user without a buffer, BurstLeaves holds: no handler call and no other user touched; when some message has text, the buffer holds the accumulated fragments, stamped with the time of the last message that has text, and the last token issued is its CancelSource and the user's only live timer; otherwise the state is unchanged |
| MessageAggregation.BurstBlankStep | Telegram.User.Net/Utilities/Ai.cs:42-43 | a blank message at the end of such a burst leaves what the burst before it left |
| MessageAggregation.BurstTextStep | Telegram.User.Net/Utilities/Ai.cs:49-84 | a message with text and no sentence end at the end of such a burst calls no handler, is appended to the buffer, restamps it and leaves its new token as the only live timer |
| MessageAggregation.AccumulateSnoc | Telegram.User.Net/Utilities/Ai.cs:42-58 | the buffer of a burst is that of all but its last message, with the last appended unless it is blank |
| MessageAggregation.HasTextAccumulates | Telegram.User.Net/Utilities/Ai.cs:42-58 | messages of which one has text leave a non-empty buffer |
| MessageAggregation.ElapseBuffered | Telegram.User.Net/Utilities/Ai.cs:68-83 | the debounce task of a user's current CancelSource flushes the whole trimmed buffer, which is non-empty, and removes only that user's entry, keeping the store consistent |
| MessageAggregation.BurstEndsSentence | Telegram.User.Net/Utilities/Ai.cs:36-93 | when only the last message of such a burst ends a sentence, the handler is called exactly once, with the trimmed accumulated buffer, which is the trimmed fragments joined by single spaces and cut at 5000 |
| MessageAggregation.BurstEndsSentenceClears | Telegram.User.Net/Utilities/Ai.cs:86-141 | after that burst the store is consistent, the user has neither an entry nor a live timer, and every other user's entry is as it was before the burst |
| MessageAggregation.BurstThenElapse | Telegram.User.Net/Utilities/Ai.cs:68-83 | after a burst with text and no sentence end, the wake-up of its last debounce task calls the handler once with the trimmed accumulated buffer (the joined fragments cut at 5000) and removes the user's entry, leaving the store as before the burst |
| MessageAggregation.SentenceStep | Telegram.User.Net/Utilities/Ai.cs:86-92 | a message that ends a sentence hands the trimmed buffer with the message appended to the handler, leaves the user with neither an entry nor a live timer, and leaves every other user's entry unchanged |
| MessageAggregation.UserMessageBuffer.constructor | Telegram.User.Net/Utilities/Ai.cs:14-17 | a new buffer is empty, stamped now, with no CancelSource |
| MessageAggregation.UserMessageBuffer.Rearm | Telegram.User.Net/Utilities/Ai.cs:52-64 | the buffer becomes the capped append of the trimmed text, the time is stamped, the CancelSource replaced, and the old one returned |
| MessageAggregation.UserMessageBuffer.TakeText | Telegram.User.Net/Utilities/Ai.cs:104-109 | returns the trimmed buffer and the old CancelSource; the buffer is cleared, the CancelSource dropped and the time stamped |
| MessageAggregation.MessageAggregator.constructor | Telegram.User.Net/Utilities/Ai.cs:33 | the aggregator starts with no buffers, no tasks and no handler calls |
| MessageAggregation.MessageAggregator.HandleIncomingMessage | Telegram.User.Net/Utilities/Ai.cs:36-93 | returns false exactly for blank text; the new state is Submit's, the handler is called once exactly when Submit flushes text, and the store stays consistent |
| MessageAggregation.MessageAggregator.Buffer | Telegram.User.Net/Utilities/Ai.cs:46-84 | get-or-add then the locked block: the new state is Arm's, the store stays consistent and no handler is called |
| MessageAggregation.MessageAggregator.GetOrAdd | Telegram.User.Net/Utilities/Ai.cs:46 | the user's buffer is returned, added empty when there was none; nothing else changes |
| MessageAggregation.MessageAggregator.AppendAndRearm | Telegram.User.Net/Utilities/Ai.cs:49-84 | the locked block on the user's buffer: the new state is Arm's, the buffers stay in step with the store and the dictionary is unchanged |
| MessageAggregation.MessageAggregator.Append | Telegram.User.Net/Utilities/Ai.cs:52-60 | the user's buffer holds the capped append and the next token; the replaced CancelSource is returned |
| MessageAggregation.MessageAggregator.StartTimer | Telegram.User.Net/Utilities/Ai.cs:63-83 | the old CancelSource is cancelled and a debounce task for the next token is started, due after 4 seconds |
| MessageAggregation.MessageAggregator.FlushBuffer | Telegram.User.Net/Utilities/Ai.cs:96-141 | the new state is Flush's, the handler is called once exactly when the trimmed buffer is non-empty, and the store stays consistent |
| MessageAggregation.MessageAggregator.FlushExisting | Telegram.User.Net/Utilities/Ai.cs:101-141 | the same as FlushBuffer, for a user whose buffer exists |
| MessageAggregation.MessageAggregator.FlushEntry | Telegram.User.Net/Utilities/Ai.cs:101-140 | returns the trimmed buffer and cancels its CancelSource; an empty capture leaves an empty entry and no call; otherwise the handler gets the text once and the entry is removed |
| MessageAggregation.MessageAggregator.Take | Telegram.User.Net/Utilities/Ai.cs:102-110 | returns the trimmed buffer; the buffer is cleared, its CancelSource cancelled and dropped |
| MessageAggregation.MessageAggregator.Remove | Telegram.User.Net/Utilities/Ai.cs:132-138 | the emptied buffer is disposed and removed from the dictionary |
| MessageAggregation.MessageAggregator.TimerElapsed | Telegram.User.Net/Utilities/Ai.cs:68-83 | the new state is Elapse's: a cancelled task ends without a flush, a live one flushes its user and calls the handler with that user's buffer |
| MessageAggregation.MessageAggregator.DisposeAll | Telegram.User.Net/Utilities/Ai.cs:152-159 | every buffer's CancelSource is cancelled and the dictionary is cleared; the state stays consistent |
| MessageAggregation.MessageAggregator.CancelEach | Telegram.User.Net/Utilities/Ai.cs:154-157 | after the loop the CancelSource of every buffer is cancelled and nothing else is |
| MessageAggregation.MessageAggregator.DisposeBuffer | Telegram.User.Net/Utilities/Ai.cs:19-23 | disposing one buffer cancels exactly its CancelSource |
| RateLimiting.Evict | Telegram.User.Net/Services/AiChatService.cs:78-81 | the dequeue loop on values: drop timestamps from the front while the oldest is more than 60 minutes old; EvictSpec and EvictSorted are its properties |
| RateLimiting.Acquire | Telegram.User.Net/Services/AiChatService.cs:71-100 | TryAcquireSlot on values: evict, then refuse within 60 seconds of the last success or with 60 timestamps left, else enqueue now; AcquireSpec and RunTracks are its properties |
| RateLimiting.EvictSpec | Telegram.User.Net/Services/AiChatService.cs:77-81 | eviction drops a prefix of expired timestamps and stops at the first one that is not expired |
| RateLimiting.AcquireSpec | Telegram.User.Net/Services/AiChatService.cs:71-100 | a slot is granted exactly when 60 s have passed since the last success and fewer than 60 timestamps survive eviction; either way only expired timestamps are dropped, from the front; a grant appends now and sets the last success to now, a refusal keeps the last success |
| RateLimiting.EvictSorted | Telegram.User.Net/Services/AiChatService.cs:78-81 | on a sorted queue eviction keeps exactly the timestamps not expired |
| RateLimiting.EvictTracked | Telegram.User.Net/Services/AiChatService.cs:78-81 | evicting at a later time leaves exactly the grants of the last 60 minutes, at most 60 of them |
| RateLimiting.StartTracks | Telegram.User.Net/Services/AiChatService.cs:68-69 | the initial empty queue and MinValue last success track the empty history |
| RateLimiting.GrantSpaced | Telegram.User.Net/Services/AiChatService.cs:84-97 | a grant 60 s or more after the last keeps grants 60 s apart |
| RateLimiting.GrantBounded | Telegram.User.Net/Services/AiChatService.cs:90-97 | a grant made while fewer than 60 grants are recent keeps every 60-minute span at 60 grants or fewer |
| RateLimiting.AcquireTracks | Telegram.User.Net/Services/AiChatService.cs:71-100 | one call at a time no earlier than the last keeps the limiter's fields equal to the recent grants and the last grant |
| RateLimiting.TracksWithinWindow | Telegram.User.Net/Services/AiChatService.cs:78-81 | every queued timestamp lies within the 60 minutes before the last call |
| RateLimiting.QueueSorted | Telegram.User.Net/Services/AiChatService.cs:96 | the queue is sorted oldest first |
| RateLimiting.StartGrants | Telegram.User.Net/Services/AiChatService.cs:84-98 | the first call on a new service, 60 s or more after MinValue, is granted and queues only now |
| RateLimiting.RunTracks | Telegram.User.Net/Services/AiChatService.cs:71-100 | over any run with a non-decreasing clock, grants are 60 s apart, no 60-minute span ending at a grant holds more than 60, and the queue is exactly the recent grants |
| RateLimiting.RateLimiter.constructor | Telegram.User.Net/Services/AiChatService.cs:67-69 | a new service has an empty queue and last success MinValue |
| RateLimiting.RateLimiter.TryAcquireSlot | Telegram.User.Net/Services/AiChatService.cs:71-100 | the dequeue loop and the two rules give exactly Acquire's new fields and answer |
| ChatShaping.Flatten | Telegram.User.Net/Services/AiChatService.cs:138 | replace every "\r\n" and then every "\n" by one space; FlattenHasNoLineFeed, FlattenWithoutCarriageReturn and FlattenCrLf are its properties |
| ChatShaping.FlattenHasNoLineFeed | Telegram.User.Net/Services/AiChatService.cs:138 | after the two replacements no line feed is left |
| ChatShaping.FlattenWithoutCarriageReturn | Telegram.User.Net/Services/AiChatService.cs:138 | in text without carriage returns each line feed becomes one space and nothing else changes |
| ChatShaping.FlattenCrLf | Telegram.User.Net/Services/AiChatService.cs:138 | a "\r\n" after text without carriage returns becomes exactly one space, and the text around it is flattened on its own |
| ChatShaping.Shorten | Telegram.User.Net/Services/AiChatService.cs:139 | text over 500 characters is cut to its first 500 and gets the ellipsis; ShortenSpec is its property |
| ChatShaping.HistoryLine | Telegram.User.Net/Services/AiChatService.cs:135-140 | "Me: " or "Contact: " and the flattened, shortened text; HistoryLineSpec and HistoryLineVerbatim are its properties |
| ChatShaping.BuildHistoryText | Telegram.User.Net/Services/AiChatService.cs:132-144 | the history lines joined by "\n"; HistoryTextLines and HistoryTextEmpty are its properties |
| ChatShaping.TruncateKeepTail | Telegram.User.Net/Services/AiChatService.cs:146-155 | the input when short enough, else its last maxChars characters moved past the first boundary when that is at positions 1 to 63; TruncateIsShortSuffix and TruncateCut are its properties |
| ChatShaping.HistoryContext | Telegram.User.Net/Services/AiChatService.cs:114-119 | the history text, or empty without messages, truncated to 7000 characters; HistoryContextBound is its property |
| ChatShaping.FilterReply | Telegram.User.Net/Services/AiChatService.cs:163-171 | the reply of QueryAsync: null on failure, a null or blank result, or one containing ".com" or "https://"; FilterReplySpec is its property |
| ChatShaping.ShortenSpec | Telegram.User.Net/Services/AiChatService.cs:139 | text of 500 characters or fewer is kept; longer text keeps its first 500 characters and gets the ellipsis; no line feed is added |
| ChatShaping.HistoryLineSpec | Telegram.User.Net/Services/AiChatService.cs:135-140 | a history line holds no line feed and is at most 510 characters long |
| ChatShaping.HistoryLineVerbatim | Telegram.User.Net/Services/AiChatService.cs:137-140 | a short message without line breaks appears verbatim after "Me: " or "Contact: " |
| ChatShaping.HistoryLines | Telegram.User.Net/Services/AiChatService.cs:135-141 | one line per message |
| ChatShaping.HistoryTextLines | Telegram.User.Net/Services/AiChatService.cs:132-144 | splitting the history text at line feeds gives back exactly the message lines, in order |
| ChatShaping.HistoryTextEmpty | Telegram.User.Net/Services/AiChatService.cs:143 | no messages give the empty text |
| ChatShaping.TruncateShort | Telegram.User.Net/Services/AiChatService.cs:148 | input no longer than maxChars is returned unchanged |
| ChatShaping.TruncateIsShortSuffix | Telegram.User.Net/Services/AiChatService.cs:146-155 | the result is a suffix of the input of at most maxChars characters, and at least maxChars - 64 for over-long input |
| ChatShaping.TruncateCut | Telegram.User.Net/Services/AiChatService.cs:150-154 | a shortened tail starts just after the tail's first boundary character, which was not its first; an unshortened tail starts with a boundary or has none at positions 1 to 63 |
| ChatShaping.HistoryContextBound | Telegram.User.Net/Services/AiChatService.cs:114-119 | the history handed to the model is at most 7000 characters and ends the history text |
| ChatShaping.FilterReplySpec | Telegram.User.Net/Services/AiChatService.cs:163-171 | a reply is passed on exactly when the request succeeded with a result that has a non-whitespace character and contains neither ".com" nor "https://"; otherwise null |
| Configuration.ParseProxies | Telegram.User.Net/Services/ConfigurationService.cs:42-46 | the proxies in the file's text: split at every line break, trimmed, empty lines dropped; ParseProxiesClean and ParseProxiesRoundTrip are its properties |
| Configuration.LoadProxies | Telegram.User.Net/Services/ConfigurationService.cs:36-47 | no proxies without a file, else the proxies parsed from its text; LoadDefaults is its property |
| Configuration.LoadPrompt | Telegram.User.Net/Services/ConfigurationService.cs:50-55 | the empty prompt without a file, else the whole text; LoadDefaults is its property |
| Configuration.SplitLines | Telegram.User.Net/Services/ConfigurationService.cs:43 | the split always yields at least one line |
| Configuration.SplitLinesHaveNoBreak | Telegram.User.Net/Services/ConfigurationService.cs:43 | no line of the split holds '\r' or '\n' |
| Configuration.JoinSplitLines | Telegram.User.Net/Services/ConfigurationService.cs:43 | the lines joined by '\n' give the text with every "\r\n" and lone '\r' turned into '\n' |
| Configuration.SplitLinesIsSplitOnLineFeed | Telegram.User.Net/Services/ConfigurationService.cs:43 | splitting on "\r\n", "\n" and "\r" is splitting the normalized text on '\n' |
| Configuration.TrimmedNonEmptySpec | Telegram.User.Net/Services/ConfigurationService.cs:44-45 | at most one proxy per line, each non-empty with no whitespace at either end |
| Configuration.TrimmedNonEmptyConcat | Telegram.User.Net/Services/ConfigurationService.cs:44-45 | the kept lines of a concatenation are those of each part, in order |
| Configuration.TrimmedNonEmptyOne | Telegram.User.Net/Services/ConfigurationService.cs:44-45 | a line is kept, trimmed, exactly when it is not blank |
| Configuration.TrimmedNonEmptyKeepsFree | Telegram.User.Net/Services/ConfigurationService.cs:44-45 | trimming and filtering add no line break |
| Configuration.TrimmedNonEmptyOfTrimmed | Telegram.User.Net/Services/ConfigurationService.cs:44-45 | lines that are already trimmed and non-empty are all kept, unchanged |
| Configuration.ParseProxiesClean | Telegram.User.Net/Services/ConfigurationService.cs:42-46 | no proxy is empty, every proxy is its own trim, and none holds a line break |
| Configuration.ParseProxiesRoundTrip | Telegram.User.Net/Services/ConfigurationService.cs:42-46 | proxies written one per line are read back exactly, in order |
| Configuration.LoadDefaults | Telegram.User.Net/Services/ConfigurationService.cs:36-55 | a missing proxy file gives no proxies and a missing prompt file the empty string; otherwise the parsed proxies and the whole prompt text |
| Strings.IsWhiteSpace | Telegram.User.Net/Utilities/Ai.cs:52 | char.IsWhiteSpace: U+0009 to U+000D, U+0085 and the Unicode space, line and paragraph separators |
| Strings.IsBlank | Telegram.User.Net/Utilities/Ai.cs:42 | string.IsNullOrWhiteSpace for a non-null string: every character is whitespace |
| Strings.TrimStart | Telegram.User.Net/Utilities/Ai.cs:54 | the suffix left after the leading whitespace: it starts with non-whitespace or is empty, and what was dropped is blank |
| Strings.TrimEnd | Telegram.User.Net/Utilities/Ai.cs:146 | the prefix left before the trailing whitespace: it ends with non-whitespace or is empty, and what was dropped is blank |
| Strings.Replace | Telegram.User.Net/Services/AiChatService.cs:138 | ordinal string.Replace: occurrences replaced left to right without overlap; ReplaceChar, ReplaceAbsent and ReplaceAfterPrefix are its properties |
| Strings.ReplaceAfterPrefix | Telegram.User.Net/Services/AiChatService.cs:138 | an occurrence of the pattern after text that cannot start one is replaced, and the replacing goes on after it |
| Strings.Join | Telegram.User.Net/Services/AiChatService.cs:143 | string.Join with a one-character separator; SplitJoin and JoinSnoc are its properties |
| Strings.SplitOn | Telegram.User.Net/Services/ConfigurationService.cs:43 | Split on one character: at least one piece, none holding the separator, and joining them gives the text back |
| Strings.Trim | Telegram.User.Net/Utilities/Ai.cs:104 | the trim is empty exactly for blank text, and otherwise starts and ends with non-whitespace; TrimKeepsMiddle says which characters it keeps |
| Strings.TrimKeepsMiddle | Telegram.User.Net/Utilities/Ai.cs:104 | the trim is the contiguous part of the text starting where TrimStart's result starts, and what it drops in front and behind is whitespace |
| Strings.TrimIdempotent | Telegram.User.Net/Utilities/Ai.cs:104 | trimming twice is trimming once |
| Strings.IndexOfAny | Telegram.User.Net/Services/AiChatService.cs:152 | the position of the first character of the set, or -1 when there is none |
| Strings.Contains | Telegram.User.Net/Services/AiChatService.cs:166 | true exactly when the pattern occurs at some position |
| Strings.SplitJoin | Telegram.User.Net/Services/AiChatService.cs:143 | splitting a join of separator-free lines gives the lines back |

## Left out

- Threads, locks and the atomicity of `ConcurrentDictionary`. The model runs
  one operation at a time. So it does not capture a flush that interleaves
  with a message for the same user. In that race the finally block
  (`Ai.cs:132-138`) may find new text and keep the entry, and a flush may
  capture only whitespace.
- `Task.Delay` and `DateTime.UtcNow`: time is a parameter, and a debounce
  task's delay running out is the explicit event `TimerElapsed`.
- MessageAggregation.MessageAggregator.TimerElapsed: requires that the task
  was started and is due. A task that wakes early is not modelled.
- `CancellationTokenSource.Dispose` and `Console.Error` logging: nothing the
  model observes depends on them.
- The `bool` result of the AI handler and its exceptions. The result is
  recorded in the call log and ignored, as in the source; a throwing handler
  is the outcome `Threw` and changes nothing else.
- `UserMessageBuffer.Lock`: it is locking only.
- Strings are sequences of `char` code points, not UTF-16 code units.
  `Length`, `Substring` and the 500 and 5000 caps count characters, so a
  surrogate pair counts as one. Null strings are not modelled, except the
  reply result of `QueryAsync`, which is an `Option`.
- ChatShaping.TruncateKeepTail: requires `maxChars >= 0`. With a negative
  limit and non-empty input the source's `Substring` throws. Its only caller
  passes 7000.
- `PostQueryAsync` (`AiChatService.cs:172-206`) is left out. It does the
  HTTP, JSON and random-`Origin` work. `QueryAsync` is modelled from the
  outcome of that request.
- `ReplyMessageWithAi` (`AiChatService.cs:101-131`) is left out. It calls
  `Messages_GetHistory` and `SendMessageAsync` on the network client. The
  model keeps only its history shaping (`HistoryContext`), for messages
  already filtered and ordered.
- File reading (`File.Exists`, `File.ReadAllTextAsync`) and the JSON
  deserialisation of `LoadFromFile`. The content of a file, or its absence,
  is the parameter of `LoadProxies` and `LoadPrompt`.
- `PathHelper.cs`, `UserAgentGenerator.cs`, `TaskExtensions.cs`,
  `Program.cs`, `UpdatesHandler.cs`, `MessageHandler.cs` and
  `ClientExtensions.cs` are not part of this model. They are path lookup,
  randomness, async wrappers, DI wiring and Telegram dispatch.
