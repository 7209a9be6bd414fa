/**
 * The debounced per-user message aggregator of Telegram.User.Net/Utilities/Ai.cs
 * (UserMessageBuffer and MessageAggregator), run sequentially.
 *
 * Fragments of text that arrive for one user are appended to that user's buffer;
 * every fragment re-arms a 4-second debounce timer and a fragment that ends a
 * sentence flushes at once. A flush hands the buffered text to the AI handler,
 * once, and drops the entry.
 *
 * Time is a parameter (DateTime ticks). A CancellationTokenSource is a token
 * number; cancelling it puts the number in `cancelled`. Each debounce task that
 * has been started and has not yet finished is an entry of `timers`, and its
 * delay running out is the event TimerElapsed. The AI handler is an opaque
 * HandlerId; its calls are recorded in the log `calls`, together with what the
 * handler did (returned a flag or threw), which the aggregator discards. The
 * static class MessageAggregator is one object of the class of that name.
 */
module MessageAggregation {
  import opened Wrappers
  import opened Strings
  import opened Clock

  /** InactivityTimeout, the debounce window: 4 seconds. */
  const InactivityTimeout := 4 * TicksPerSecond
  /** MaxBufferLength, the safety limit on a buffer. */
  const MaxBufferLength := 5000

  type UserId = int
  type Token = nat
  /** Stands for the Func<string, Task<bool>> passed with a message. */
  type HandlerId = int

  /** What one call of the handler did; the aggregator ignores it either way. */
  datatype HandlerOutcome = Responded(responded: bool) | Threw

  /** One call aiHandler(text), made while flushing the buffer of userId. */
  datatype HandlerCall = HandlerCall(userId: UserId, handler: HandlerId, text: string, outcome: HandlerOutcome)

  /** A started debounce task: it flushes userId with handler once due has passed,
      unless its token was cancelled. */
  datatype Timer = Timer(userId: UserId, handler: HandlerId, due: int)

  /** The value of a UserMessageBuffer. */
  datatype Entry = Entry(buffer: string, lastUpdated: int, cancelSource: Option<Token>)

  // ---------------------------------------------------------------------------
  // The buffer arithmetic, as functions

  /** The separator put before a fragment: one space when the buffer is non-empty
      and does not already end in whitespace. */
  function Separator(buffer: string): (sep: string)
    ensures sep == [] || sep == " "
    ensures sep == " " <==> buffer != [] && !IsWhiteSpace(buffer[|buffer| - 1])
  {
    if |buffer| > 0 && !IsWhiteSpace(buffer[|buffer| - 1]) then " " else ""
  }

  /** Setting StringBuilder.Length to MaxBufferLength when it is longer. */
  function Cap(s: string): (r: string)
    ensures |r| <= MaxBufferLength && r <= s
    ensures |s| <= MaxBufferLength ==> r == s
    ensures |s| > MaxBufferLength ==> |r| == MaxBufferLength
  {
    if |s| > MaxBufferLength then s[..MaxBufferLength] else s
  }

  /** The buffer after one accepted fragment: separator, trimmed fragment, cap. */
  function AppendFragment(buffer: string, text: string): string {
    Cap(buffer + Separator(buffer) + Trim(text))
  }

  /** What was already buffered is kept and only what overflows the cap is lost;
      a buffer that starts with text keeps starting with text. */
  lemma AppendFragmentSpec(buffer: string, text: string)
    ensures var r := AppendFragment(buffer, text);
      && |r| <= MaxBufferLength
      && r <= buffer + Separator(buffer) + Trim(text)
      && (|buffer| <= MaxBufferLength ==> buffer <= r)
      && (|buffer + Separator(buffer) + Trim(text)| <= MaxBufferLength ==> r == buffer + Separator(buffer) + Trim(text))
      && (!IsBlank(text) && (buffer == [] || !IsWhiteSpace(buffer[0])) ==> r != [] && !IsWhiteSpace(r[0]))
  {
    var full := buffer + Separator(buffer) + Trim(text);
    assert buffer == [] ==> full == Trim(text);
  }

  /** '.', '!', '?' and the Arabic question mark U+061F. */
  predicate IsSentenceTerminator(c: char) {
    c == '.' || c == '!' || c == '?' || c == '\U{061F}'
  }

  /** The last character that is not trailing whitespace ends a sentence. */
  function EndsWithSentenceTerminator(text: string): (b: bool)
    ensures b <==> exists i :: 0 <= i < |text| && IsSentenceTerminator(text[i]) && IsBlank(text[i + 1..])
  {
    if IsBlank(text) then false
    else
      var last := TrimEnd(text);
      var n := |last| - 1;
      BlankSlice(text, |last|);
      assert forall i :: 0 <= i < |text| && IsSentenceTerminator(text[i]) && IsBlank(text[i + 1..]) ==> i == n by {
        forall i | 0 <= i < |text| && IsSentenceTerminator(text[i]) && IsBlank(text[i + 1..])
          ensures i == n
        {
          BlankSlice(text, i + 1);
        }
      }
      IsSentenceTerminator(last[n])
  }

  /** The buffer that a burst of fragments builds from an empty one, blank
      fragments ignored. */
  function Accumulate(fragments: seq<string>): string {
    if fragments == [] then []
    else
      var prior := Accumulate(fragments[..|fragments| - 1]);
      var text := fragments[|fragments| - 1];
      if IsBlank(text) then prior else AppendFragment(prior, text)
  }

  /** A non-empty string whose last character is not whitespace. */
  predicate EndsInWord(w: string) {
    w != [] && !IsWhiteSpace(w[|w| - 1])
  }

  /** Every one of ws ends in a word. */
  predicate AllWords(ws: seq<string>) {
    forall k :: 0 <= k < |ws| ==> EndsInWord(ws[k])
  }

  /** The trimmed non-blank fragments, in order. */
  function Words(fragments: seq<string>): seq<string> {
    if fragments == [] then []
    else
      var init := Words(fragments[..|fragments| - 1]);
      var text := fragments[|fragments| - 1];
      if IsBlank(text) then init else init + [Trim(text)]
  }

  /** Each trimmed non-blank fragment ends in a word. */
  lemma {:induction false} WordsEndInWords(fragments: seq<string>)
    ensures AllWords(Words(fragments))
    decreases |fragments|
  {
    if fragments != [] {
      var init := Words(fragments[..|fragments| - 1]);
      var text := fragments[|fragments| - 1];
      WordsEndInWords(fragments[..|fragments| - 1]);
      if !IsBlank(text) {
        TrimEndsInWord(text);
        AllWordsSnoc(init, Trim(text));
      }
    }
  }

  /** The trim of a non-blank text ends in a word. */
  lemma TrimEndsInWord(text: string)
    requires !IsBlank(text)
    ensures EndsInWord(Trim(text))
  {
  }

  /** One more word keeps a sequence of words. */
  lemma AllWordsSnoc(ws: seq<string>, t: string)
    requires AllWords(ws) && EndsInWord(t)
    ensures AllWords(ws + [t])
  {
    var w := ws + [t];
    forall k | 0 <= k < |w|
      ensures EndsInWord(w[k])
    {
      if k < |ws| {
        assert w[k] == ws[k];
      }
    }
  }

  /** A fragment appended to a capped join of words gives the capped join
      with one more word. */
  lemma AppendToCappedJoin(j: string, text: string)
    requires EndsInWord(j) && !IsBlank(text)
    ensures AppendFragment(Cap(j), text) == Cap(j + " " + Trim(text))
  {
    var t := Trim(text);
    if |j| > MaxBufferLength {
      var prior := j[..MaxBufferLength];
      assert (j + " " + t)[..MaxBufferLength] == prior;
    } else {
      assert Separator(j) == " ";
    }
  }

  /** A burst of fragments buffers the space-joined trimmed fragments, cut at
      MaxBufferLength: what exceeds the cap is dropped, never earlier text. */
  lemma {:induction false} AccumulateIsCappedJoin(fragments: seq<string>)
    ensures Accumulate(fragments) == Cap(Join(Words(fragments), ' '))
    decreases |fragments|
  {
    if fragments != [] {
      var init := fragments[..|fragments| - 1];
      var text := fragments[|fragments| - 1];
      AccumulateIsCappedJoin(init);
      if !IsBlank(text) {
        WordsEndInWords(init);
        AppendWord(Words(init), text);
      }
    }
  }

  /** One more non-blank fragment: the capped join grows by that trimmed word. */
  lemma AppendWord(ws: seq<string>, text: string)
    requires AllWords(ws)
    requires !IsBlank(text)
    ensures AppendFragment(Cap(Join(ws, ' ')), text) == Cap(Join(ws + [Trim(text)], ' '))
  {
    var t := Trim(text);
    if ws == [] {
      AppendFirstWord(text);
      assert ws + [t] == [t];
    } else {
      var j := Join(ws, ' ');
      JoinEndsWithLastWord(ws);
      AppendToCappedJoin(j, text);
      JoinSnoc(ws, t, ' ');
    }
  }

  /** The first fragment of an empty buffer is buffered trimmed, without a
      separator. */
  lemma AppendFirstWord(text: string)
    ensures AppendFragment(Cap([]), text) == Cap(Join([Trim(text)], ' '))
  {
    assert [] + Separator([]) + Trim(text) == Trim(text);
  }

  /** A join of words ends where its last word ends. */
  lemma JoinEndsWithLastWord(ws: seq<string>)
    requires ws != [] && AllWords(ws)
    ensures EndsInWord(Join(ws, ' '))
  {
    if |ws| > 1 {
      assert AllWords(ws[1..]) by {
        forall k | 0 <= k < |ws| - 1
          ensures EndsInWord(ws[1..][k])
        {
          assert ws[1..][k] == ws[k + 1];
        }
      }
      JoinEndsWithLastWord(ws[1..]);
    } else {
      assert EndsInWord(ws[0]);
    }
  }

  // ---------------------------------------------------------------------------
  // The store and its debounce tasks, as values

  /** The store (Buffers), the started debounce tasks, the cancelled tokens and
      the next fresh token. */
  datatype State = State(store: map<UserId, Entry>, timers: map<Token, Timer>, cancelled: set<Token>, nextToken: Token)

  const Initial := State(map[], map[], {}, 0)

  /** The token numbers held by an entry's CancelSource. */
  function HandleOf(e: Entry): set<Token> {
    Elements(e.cancelSource)
  }

  /** The tokens held by the entries of the users in ks. */
  function Handles(store: map<UserId, Entry>, ks: set<UserId>): set<Token> {
    set k, t | k in ks && k in store && t in HandleOf(store[k]) :: t
  }

  /** Handles collects exactly the CancelSources of the entries of ks. */
  lemma HandlesSpec(store: map<UserId, Entry>, ks: set<UserId>)
    ensures forall k :: k in ks && k in store ==> HandleOf(store[k]) <= Handles(store, ks)
    ensures forall t :: t in Handles(store, ks) ==> exists k :: k in ks && k in store && store[k].cancelSource == Some(t)
  {
  }

  /** Removing a key just updated removes it from the original map. */
  lemma UpdateThenRemove<V>(m: map<UserId, V>, k: UserId, v: V)
    ensures m[k := v] - {k} == m - {k}
  {
    assert (m[k := v] - {k}).Keys == (m - {k}).Keys;
  }

  /** Taking one more user into account adds that user's CancelSource. */
  lemma HandlesInsert(store: map<UserId, Entry>, ks: set<UserId>, k: UserId)
    requires k in store
    ensures Handles(store, ks + {k}) == Handles(store, ks) + HandleOf(store[k])
  {
  }

  /** A timer that was armed and whose token has not been cancelled. */
  predicate Live(s: State, t: Token) {
    t in s.timers && t !in s.cancelled
  }

  /** The consistency of the store with the debounce tasks: buffers are within the
      cap and start with a non-whitespace character; an entry's CancelSource is a
      live timer of that entry, armed after text was buffered; every live timer is
      the CancelSource of its entry. */
  ghost predicate Consistent(s: State) {
    TokensIssued(s) && EntriesWellFormed(s) && LiveTimersOwned(s)
  }

  /** Every armed or cancelled token was handed out before. */
  ghost predicate TokensIssued(s: State) {
    && (forall t :: t in s.timers ==> t < s.nextToken)
    && (forall t :: t in s.cancelled ==> t < s.nextToken)
  }

  /** One entry of the store, as Consistent requires it. */
  ghost predicate EntryWellFormed(s: State, k: UserId)
    requires k in s.store
  {
    var e := s.store[k];
    && |e.buffer| <= MaxBufferLength
    && (e.buffer == [] || !IsWhiteSpace(e.buffer[0]))
    && (e.cancelSource.Some? ==>
          && e.buffer != []
          && Live(s, e.cancelSource.value)
          && s.timers[e.cancelSource.value].userId == k)
  }

  ghost predicate EntriesWellFormed(s: State) {
    forall k {:trigger EntryWellFormed(s, k)} :: k in s.store ==> EntryWellFormed(s, k)
  }

  /** A live timer is the CancelSource of its user's entry. */
  ghost predicate OwnsTimer(s: State, t: Token)
    requires t in s.timers
  {
    s.timers[t].userId in s.store && s.store[s.timers[t].userId].cancelSource == Some(t)
  }

  ghost predicate LiveTimersOwned(s: State) {
    forall t {:trigger OwnsTimer(s, t)} :: Live(s, t) ==> OwnsTimer(s, t)
  }

  /** What sequential runs keep: every entry holds text waiting for its timer.
      An entry emptied by a flush that did not remove it (possible only when a
      flush interleaves with other operations) is not settled. */
  ghost predicate Settled(s: State) {
    forall k :: k in s.store ==> s.store[k].buffer != [] && s.store[k].cancelSource.Some?
  }

  /** FlushBufferAsync on values: the new state, and the text handed to the
      handler if it is called. */
  function Flush(s: State, userId: UserId, now: int): (State, Option<string>) {
    if userId !in s.store then (s, None)
    else
      var e := s.store[userId];
      var captured := Trim(e.buffer);
      var cancelled := s.cancelled + HandleOf(e);
      if captured == [] then
        (s.(store := s.store[userId := Entry([], now, None)], cancelled := cancelled), None)
      else
        (s.(store := s.store - {userId}, cancelled := cancelled), Some(captured))
  }

  /** The part of HandleIncomingMessageAsync under the entry's lock: get or add the
      entry, append, cancel the old timer and arm a fresh one. */
  function Arm(s: State, userId: UserId, text: string, handler: HandlerId, now: int): State
    requires !IsBlank(text)
  {
    ArmFrom(s, userId, Prior(s, userId, now), text, handler, now)
  }

  /** Arm, from the entry prior of userId. */
  function ArmFrom(s: State, userId: UserId, prior: Entry, text: string, handler: HandlerId, now: int): State {
    var token := s.nextToken;
    State(s.store[userId := Entry(AppendFragment(prior.buffer, text), now, Some(token))],
          s.timers[token := Timer(userId, handler, now + InactivityTimeout)],
          s.cancelled + HandleOf(prior),
          token + 1)
  }

  /** The entry GetOrAdd yields: the stored one, or a new empty one. */
  function Prior(s: State, userId: UserId, now: int): Entry {
    if userId in s.store then s.store[userId] else Entry([], now, None)
  }

  /** The store after GetOrAdd. */
  function Added(s: State, userId: UserId, now: int): State {
    s.(store := s.store[userId := Prior(s, userId, now)])
  }

  /** HandleIncomingMessageAsync on values: the new state and the text handed to
      the handler by an immediate flush. */
  function Submit(s: State, userId: UserId, text: string, handler: HandlerId, now: int): (State, Option<string>) {
    if IsBlank(text) then (s, None)
    else
      var armed := Arm(s, userId, text, handler, now);
      if EndsWithSentenceTerminator(text) then Flush(armed, userId, now) else (armed, None)
  }

  /** The debounce task of token wakes: it flushes unless its token was cancelled. */
  function Elapse(s: State, token: Token, now: int): (State, Option<string>) {
    if token !in s.timers then (s, None)
    else if token in s.cancelled then (Finished(s, token), None)
    else
      var (s', arg) := Flush(s, s.timers[token].userId, now);
      (Finished(s', token), arg)
  }

  /** The debounce task of token has run to its end. */
  function Finished(s: State, token: Token): State {
    s.(timers := s.timers - {token})
  }

  /** DisposeAll on values: every entry's CancelSource cancelled, the store cleared. */
  function Disposed(s: State): State {
    s.(store := map[], cancelled := s.cancelled + Handles(s.store, s.store.Keys))
  }

  // ---------------------------------------------------------------------------
  // What the operations promise

  /** Flush as FlushBufferAsync does it: the entry emptied and its CancelSource
      cancelled, then, when something was captured, the entry removed. */
  lemma FlushSteps(s: State, userId: UserId, now: int, captured: string)
    requires userId in s.store && captured == Trim(s.store[userId].buffer)
    ensures var emptied := s.store[userId := Entry([], now, None)];
      var cancelled := s.cancelled + HandleOf(s.store[userId]);
      Flush(s, userId, now)
        == if captured == [] then (State(emptied, s.timers, cancelled, s.nextToken), None)
           else (State(emptied - {userId}, s.timers, cancelled, s.nextToken), Some(captured))
  {
    UpdateThenRemove(s.store, userId, Entry([], now, None));
  }

  /** Flush keeps the store consistent with its timers, and keeps it settled. */
  lemma FlushPreserves(s: State, userId: UserId, now: int)
    requires Consistent(s)
    ensures Consistent(Flush(s, userId, now).0)
    ensures Settled(s) ==> Settled(Flush(s, userId, now).0)
  {
    if userId in s.store {
      var e := s.store[userId];
      assert EntryWellFormed(s, userId);
      var emptied := Trim(e.buffer) == [];
      var store' := if emptied then s.store[userId := Entry([], now, None)] else s.store - {userId};
      var s' := s.(store := store', cancelled := s.cancelled + HandleOf(e));
      assert Flush(s, userId, now).0 == s';
      DropHandlePreserves(s, userId, s');
      if Settled(s) {
        assert !IsBlank(e.buffer) by {
          assert !IsWhiteSpace(e.buffer[0]);
        }
      }
    }
  }

  /** Cancelling a user's CancelSource and then removing its entry, or leaving it
      empty with no handle, keeps the store consistent. */
  lemma DropHandlePreserves(s: State, userId: UserId, s': State)
    requires Consistent(s) && userId in s.store
    requires s'.timers == s.timers && s'.nextToken == s.nextToken
    requires s'.cancelled == s.cancelled + HandleOf(s.store[userId])
    requires || s'.store == s.store - {userId}
             || (userId in s'.store && s'.store == s.store[userId := Entry([], s'.store[userId].lastUpdated, None)])
    ensures Consistent(s')
  {
    var e := s.store[userId];
    assert EntryWellFormed(s, userId);
    // a live timer after the flush was live before and belongs to another user
    forall t | Live(s', t)
      ensures OwnsTimer(s', t)
    {
      assert Live(s, t) && OwnsTimer(s, t);
      assert t !in HandleOf(e);
    }
    // the other users' entries are untouched, and so are their timers
    forall k | k in s'.store
      ensures EntryWellFormed(s', k)
    {
      if k != userId {
        assert s'.store[k] == s.store[k] && EntryWellFormed(s, k);
      }
    }
  }

  /** Flush on an absent user, or on a buffer blank after trimming, never calls
      the handler; otherwise it calls it once with the trimmed buffer and the
      entry is gone. Either way the user has no live timer afterwards. */
  lemma FlushCallsHandlerOnce(s: State, userId: UserId, now: int)
    requires Consistent(s)
    ensures var (s', arg) := Flush(s, userId, now);
      && (userId !in s.store ==> s' == s && arg == None)
      && (userId in s.store ==>
            var captured := Trim(s.store[userId].buffer);
            && (captured == [] ==> arg == None && s'.store[userId] == Entry([], now, None))
            && (captured != [] ==> arg == Some(captured) && userId !in s'.store && s'.store == s.store - {userId}))
      && (forall t :: Live(s', t) ==> s'.timers[t].userId != userId)
  {
    var s' := Flush(s, userId, now).0;
    forall t | Live(s', t)
      ensures s'.timers[t].userId != userId
    {
      assert Live(s, t) && OwnsTimer(s, t);
    }
  }

  /** The locked part of a submit keeps the store consistent. */
  lemma ArmPreserves(s: State, userId: UserId, text: string, handler: HandlerId, now: int)
    requires Consistent(s) && !IsBlank(text)
    ensures Consistent(Arm(s, userId, text, handler, now))
  {
    ArmIssues(s, userId, text, handler, now);
    ArmWellFormed(s, userId, text, handler, now);
    ArmOwned(s, userId, text, handler, now);
  }

  /** Arming issues the next token. */
  lemma ArmIssues(s: State, userId: UserId, text: string, handler: HandlerId, now: int)
    requires Consistent(s) && !IsBlank(text)
    ensures TokensIssued(Arm(s, userId, text, handler, now))
  {
    var prior := Prior(s, userId, now);
    var s' := Arm(s, userId, text, handler, now);
    assert s'.cancelled == s.cancelled + HandleOf(prior);
    assert forall t :: t in HandleOf(prior) ==> t in s.timers by {
      if userId in s.store {
        assert EntryWellFormed(s, userId);
      }
    }
    forall t | t in s'.timers || t in s'.cancelled
      ensures t < s'.nextToken
    {
      if t in s.timers || t in s.cancelled {
        assert t < s.nextToken;
      }
    }
  }

  /** The CancelSource of the entry GetOrAdd yields is live and no other
      entry's; the fresh token is not yet issued. */
  lemma PriorFacts(s: State, userId: UserId, now: int)
    requires Consistent(s)
    ensures var prior := Prior(s, userId, now);
      && (prior.buffer == [] || !IsWhiteSpace(prior.buffer[0]))
      && s.nextToken !in s.timers && s.nextToken !in s.cancelled
      && s.nextToken !in HandleOf(prior)
      && (prior.cancelSource.Some? ==>
            forall k :: k in s.store && k != userId ==> s.store[k].cancelSource != prior.cancelSource)
  {
    var prior := Prior(s, userId, now);
    assert TokensIssued(s);
    if userId in s.store {
      assert EntryWellFormed(s, userId);
      forall k | k in s.store && k != userId && prior.cancelSource.Some?
        ensures s.store[k].cancelSource != prior.cancelSource
      {
        assert EntryWellFormed(s, k);
      }
    }
  }

  /** Arming keeps every entry well formed. */
  lemma ArmWellFormed(s: State, userId: UserId, text: string, handler: HandlerId, now: int)
    requires Consistent(s) && !IsBlank(text)
    ensures EntriesWellFormed(Arm(s, userId, text, handler, now))
  {
    var s' := Arm(s, userId, text, handler, now);
    forall k | k in s'.store
      ensures EntryWellFormed(s', k)
    {
      if k == userId {
        ArmedEntry(s, userId, text, handler, now);
      } else {
        ArmKeepsOther(s, userId, text, handler, now, k);
      }
    }
  }

  /** Arming leaves the entries of the other users well formed: their
      CancelSource is neither the fresh token nor the one cancelled. */
  lemma ArmKeepsOther(s: State, userId: UserId, text: string, handler: HandlerId, now: int, k: UserId)
    requires Consistent(s) && !IsBlank(text) && k in s.store && k != userId
    ensures EntryWellFormed(Arm(s, userId, text, handler, now), k)
  {
    var prior := Prior(s, userId, now);
    var e := s.store[k];
    assert EntryWellFormed(s, k);
    if e.cancelSource.Some? {
      assert e.cancelSource.value < s.nextToken by {
        assert TokensIssued(s);
      }
      if userId in s.store {
        assert EntryWellFormed(s, userId);
      }
      assert e.cancelSource.value !in HandleOf(prior);
    }
  }

  /** The armed entry is well formed: within the cap, starting with text, and
      holding the fresh token, which is live. */
  lemma ArmedEntry(s: State, userId: UserId, text: string, handler: HandlerId, now: int)
    requires Consistent(s) && !IsBlank(text)
    ensures EntryWellFormed(Arm(s, userId, text, handler, now), userId)
  {
    var prior := Prior(s, userId, now);
    PriorFacts(s, userId, now);
    AppendFragmentSpec(prior.buffer, text);
  }

  /** After arming, every live timer is its entry's CancelSource. */
  lemma ArmOwned(s: State, userId: UserId, text: string, handler: HandlerId, now: int)
    requires Consistent(s) && !IsBlank(text)
    ensures LiveTimersOwned(Arm(s, userId, text, handler, now))
  {
    var prior := Prior(s, userId, now);
    var token := s.nextToken;
    var s' := Arm(s, userId, text, handler, now);
    assert token !in s.timers by {
      assert TokensIssued(s);
    }
    forall t | Live(s', t)
      ensures OwnsTimer(s', t)
    {
      if t != token {
        assert Live(s, t) && OwnsTimer(s, t);
        assert t !in HandleOf(prior);
      }
    }
  }

  /** Arming leaves every entry holding text and a CancelSource. */
  lemma ArmSettles(s: State, userId: UserId, text: string, handler: HandlerId, now: int)
    requires Settled(s) && !IsBlank(text)
    ensures Settled(Arm(s, userId, text, handler, now))
  {
    var s' := Arm(s, userId, text, handler, now);
    forall k | k in s'.store
      ensures s'.store[k].buffer != [] && s'.store[k].cancelSource.Some?
    {
      if k != userId {
        assert s'.store[k] == s.store[k];
      }
    }
  }

  /** GetOrAdd keeps the store consistent. */
  lemma AddedPreserves(s: State, userId: UserId, now: int)
    requires Consistent(s)
    ensures Consistent(Added(s, userId, now))
  {
    var s' := Added(s, userId, now);
    forall k | k in s'.store
      ensures EntryWellFormed(s', k)
    {
      if k != userId || userId in s.store {
        assert EntryWellFormed(s, k);
      }
    }
    forall t | Live(s', t)
      ensures OwnsTimer(s', t)
    {
      assert OwnsTimer(s, t);
    }
  }

  /** Arming after GetOrAdd is arming: the added entry is the one Arm starts from. */
  lemma ArmAfterAdded(s: State, userId: UserId, text: string, handler: HandlerId, now: int)
    requires !IsBlank(text)
    ensures Arm(Added(s, userId, now), userId, text, handler, now) == Arm(s, userId, text, handler, now)
  {
    var p := Prior(s, userId, now);
    assert Prior(Added(s, userId, now), userId, now) == p;
    ArmFromUpdated(s, userId, p, text, handler, now);
  }

  /** Arming from prior after storing prior is arming from prior. */
  lemma ArmFromUpdated(s: State, userId: UserId, prior: Entry, text: string, handler: HandlerId, now: int)
    ensures ArmFrom(s.(store := s.store[userId := prior]), userId, prior, text, handler, now) == ArmFrom(s, userId, prior, text, handler, now)
  {
    UpdateTwice(s.store, userId, prior, Entry(AppendFragment(prior.buffer, text), now, Some(s.nextToken)));
  }

  /** The second of two updates of one key wins. */
  lemma UpdateTwice<V>(m: map<UserId, V>, k: UserId, v: V, w: V)
    ensures m[k := v][k := w] == m[k := w]
  {
  }

  /** Submit keeps the store consistent with its timers, and keeps it settled. */
  lemma SubmitPreserves(s: State, userId: UserId, text: string, handler: HandlerId, now: int)
    requires Consistent(s)
    ensures Consistent(Submit(s, userId, text, handler, now).0)
    ensures Settled(s) ==> Settled(Submit(s, userId, text, handler, now).0)
  {
    if !IsBlank(text) {
      var armed := Arm(s, userId, text, handler, now);
      assert Submit(s, userId, text, handler, now).0
        == if EndsWithSentenceTerminator(text) then Flush(armed, userId, now).0 else armed;
      ArmPreserves(s, userId, text, handler, now);
      if Settled(s) {
        ArmSettles(s, userId, text, handler, now);
      }
      FlushPreserves(armed, userId, now);
    }
  }

  /** Arming appends to the user's entry and makes the fresh token its
      CancelSource; the user's earlier live timers are all cancelled, and the
      fresh timer is the user's only live one. */
  lemma ArmEffect(s: State, userId: UserId, text: string, handler: HandlerId, now: int)
    requires Consistent(s) && !IsBlank(text)
    ensures var armed := Arm(s, userId, text, handler, now);
      var token := s.nextToken;
      && token !in s.timers
      && armed.store == s.store[userId := Entry(AppendFragment(Prior(s, userId, now).buffer, text), now, Some(token))]
      && armed.timers == s.timers[token := Timer(userId, handler, now + InactivityTimeout)]
      && (forall t :: t in s.timers && Live(s, t) && s.timers[t].userId == userId ==> t in armed.cancelled)
      && (forall t :: Live(armed, t) && armed.timers[t].userId == userId <==> t == token)
  {
    var prior := Prior(s, userId, now);
    var token := s.nextToken;
    var armed := Arm(s, userId, text, handler, now);
    ArmPreserves(s, userId, text, handler, now);
    assert armed.cancelled == s.cancelled + HandleOf(prior);
    assert token !in s.timers && token !in s.cancelled by {
      assert TokensIssued(s);
    }
    assert token !in HandleOf(prior) by {
      if userId in s.store {
        assert EntryWellFormed(s, userId);
      }
    }
    forall t | t in s.timers && Live(s, t) && s.timers[t].userId == userId
      ensures t in armed.cancelled
    {
      assert OwnsTimer(s, t);
      assert t in HandleOf(prior);
    }
    forall t | Live(armed, t) && armed.timers[t].userId == userId
      ensures t == token
    {
      assert OwnsTimer(armed, t);
    }
  }

  /** Blank text is ignored; other text is appended after the separator, the old
      timer is cancelled and exactly one fresh live timer is left for the user,
      unless the text ends a sentence, in which case the handler gets the whole
      trimmed buffer at once and the user's entry is gone. */
  lemma SubmitEffect(s: State, userId: UserId, text: string, handler: HandlerId, now: int)
    requires Consistent(s)
    ensures var (s', arg) := Submit(s, userId, text, handler, now);
      var prior := if userId in s.store then s.store[userId].buffer else [];
      var appended := AppendFragment(prior, text);
      && (IsBlank(text) ==> s' == s && arg == None)
      && (!IsBlank(text) ==>
            && s.nextToken !in s.timers
            && s'.timers == s.timers[s.nextToken := Timer(userId, handler, now + InactivityTimeout)]
            && (forall t :: t in s.timers && Live(s, t) && s.timers[t].userId == userId ==> !Live(s', t))
            && (EndsWithSentenceTerminator(text) ==>
                  && arg == Some(Trim(appended)) && Trim(appended) != []
                  && userId !in s'.store && s'.store == s.store - {userId})
            && (!EndsWithSentenceTerminator(text) ==>
                  && arg == None
                  && s'.store == s.store[userId := Entry(appended, now, Some(s.nextToken))]
                  && (forall t :: Live(s', t) && s'.timers[t].userId == userId <==> t == s.nextToken)))
  {
    if !IsBlank(text) {
      var armed := Arm(s, userId, text, handler, now);
      ArmEffect(s, userId, text, handler, now);
      if EndsWithSentenceTerminator(text) {
        var appended := AppendFragment(Prior(s, userId, now).buffer, text);
        ArmPreserves(s, userId, text, handler, now);
        assert EntryWellFormed(armed, userId);
        assert !IsBlank(appended);
        FlushCallsHandlerOnce(armed, userId, now);
        UpdateThenRemove(s.store, userId, armed.store[userId]);
      }
    }
  }

  /** A finished task whose token was cancelled leaves the store consistent. */
  lemma FinishedPreserves(s: State, token: Token)
    requires Consistent(s) && token in s.cancelled
    ensures Consistent(Finished(s, token))
  {
    var s' := Finished(s, token);
    forall k | k in s'.store
      ensures EntryWellFormed(s', k)
    {
      assert EntryWellFormed(s, k);
    }
    forall t | Live(s', t)
      ensures OwnsTimer(s', t)
    {
      assert Live(s, t) && OwnsTimer(s, t);
    }
  }

  /** A timer whose token was cancelled never flushes; a live one flushes its
      user, calling the handler with that user's trimmed, non-empty buffer. */
  lemma ElapseEffect(s: State, token: Token, now: int)
    requires Consistent(s)
    ensures var (s', arg) := Elapse(s, token, now);
      && s'.timers == s.timers - {token}
      && (!Live(s, token) ==> s'.store == s.store && s'.cancelled == s.cancelled && arg == None)
      && (Live(s, token) ==>
            var u := s.timers[token].userId;
            && u in s.store && s.store[u].cancelSource == Some(token)
            && arg == Some(Trim(s.store[u].buffer)) && Trim(s.store[u].buffer) != []
            && s'.store == s.store - {u}
            && s'.cancelled == s.cancelled + {token})
      && (Settled(s) ==> Settled(s'))
  {
    if token in s.timers && token !in s.cancelled {
      var u := s.timers[token].userId;
      assert Live(s, token) && OwnsTimer(s, token);
      assert EntryWellFormed(s, u);
      assert !IsBlank(s.store[u].buffer) by {
        assert !IsWhiteSpace(s.store[u].buffer[0]);
      }
    }
  }

  /** The wake-up of a debounce task keeps the store consistent. */
  lemma ElapsePreserves(s: State, token: Token, now: int)
    requires Consistent(s)
    ensures Consistent(Elapse(s, token, now).0)
  {
    if token in s.timers {
      if token in s.cancelled {
        FinishedPreserves(s, token);
      } else {
        var u := s.timers[token].userId;
        assert Live(s, token) && OwnsTimer(s, token);
        var e := s.store[u];
        assert EntryWellFormed(s, u);
        assert !IsBlank(e.buffer) by {
          assert !IsWhiteSpace(e.buffer[0]);
        }
        FlushPreserves(s, u, now);
        FinishedPreserves(Flush(s, u, now).0, token);
      }
    }
  }

  /** DisposeAll leaves the store empty and no live timer behind. */
  lemma DisposeAllEffect(s: State)
    requires Consistent(s)
    ensures var s' := Disposed(s);
      s'.store == map[] && (forall t :: !Live(s', t)) && Consistent(s') && Settled(s')
  {
    var s' := Disposed(s);
    HandlesSpec(s.store, s.store.Keys);
    forall t | t in s'.cancelled
      ensures t < s'.nextToken
    {
      if t !in s.cancelled {
        var k :| k in s.store.Keys && k in s.store && s.store[k].cancelSource == Some(t);
        assert EntryWellFormed(s, k);
      }
    }
    forall t | t in s'.timers ensures t in s'.cancelled {
      if t !in s.cancelled {
        assert Live(s, t) && OwnsTimer(s, t);
        assert t in HandleOf(s.store[s.timers[t].userId]);
      }
    }
  }

  // ---------------------------------------------------------------------------
  // A burst of messages from one user

  /** A message as HandleIncomingMessageAsync receives it: its text and the
      time it arrives. */
  datatype Incoming = Incoming(text: string, at: int)

  /** The texts of the messages, in order. */
  function Texts(msgs: seq<Incoming>): seq<string> {
    seq(|msgs|, i requires 0 <= i < |msgs| => msgs[i].text)
  }

  /** The messages of one user handled one after the other, with no debounce
      task waking in between: the state after the last one, and the texts
      handed to the handler, in order. */
  function Burst(s: State, userId: UserId, handler: HandlerId, msgs: seq<Incoming>): (State, seq<string>)
    decreases |msgs|
  {
    if msgs == [] then (s, [])
    else
      var (s1, args) := Burst(s, userId, handler, msgs[..|msgs| - 1]);
      var m := msgs[|msgs| - 1];
      var (s2, arg) := Submit(s1, userId, m.text, handler, m.at);
      (s2, if arg.Some? then args + [arg.value] else args)
  }

  /** No message of msgs ends a sentence. */
  predicate NoSentenceEnd(msgs: seq<Incoming>) {
    forall i :: 0 <= i < |msgs| ==> !EndsWithSentenceTerminator(msgs[i].text)
  }

  /** The user has no live debounce task. */
  ghost predicate Idle(s: State, userId: UserId) {
    forall t :: Live(s, t) ==> s.timers[t].userId != userId
  }

  /** The only live debounce task of the user is the one of token. */
  ghost predicate IdleBut(s: State, userId: UserId, token: Token) {
    forall t :: Live(s, t) && s.timers[t].userId == userId <==> t == token
  }

  /** The arrival time of the last message that is not blank, or otherwise
      when there is none. */
  function LastTextAt(msgs: seq<Incoming>, otherwise: int): int
    decreases |msgs|
  {
    if msgs == [] then otherwise
    else if IsBlank(msgs[|msgs| - 1].text) then LastTextAt(msgs[..|msgs| - 1], otherwise)
    else msgs[|msgs| - 1].at
  }

  /** The buffer a burst builds is empty exactly when every fragment is blank. */
  lemma {:induction false} AccumulateEmpty(fragments: seq<string>)
    ensures Accumulate(fragments) == [] <==> forall i :: 0 <= i < |fragments| ==> IsBlank(fragments[i])
    decreases |fragments|
  {
    if fragments != [] {
      var init := fragments[..|fragments| - 1];
      AccumulateEmpty(init);
      assert forall i :: 0 <= i < |init| ==> init[i] == fragments[i];
    }
  }

  /** What a burst of messages, none ending a sentence, leaves (r) when sent
      to a user without a buffer: the handler is not called and the other
      users are untouched; when some message has text, the user's buffer
      holds the accumulated fragments, stamped with the last such message's
      time, and its CancelSource is the last token issued, the user's only
      live timer; otherwise nothing changed at all. */
  ghost predicate BurstLeaves(s: State, userId: UserId, msgs: seq<Incoming>, r: (State, seq<string>)) {
    && Consistent(r.0) && r.1 == []
    && r.0.store - {userId} == s.store
    && (Accumulate(Texts(msgs)) == [] ==> r.0 == s)
    && (Accumulate(Texts(msgs)) != [] ==>
          && r.0.nextToken > 0 && userId in r.0.store
          && r.0.store[userId] == Entry(Accumulate(Texts(msgs)), LastTextAt(msgs, 0), Some(r.0.nextToken - 1))
          && IdleBut(r.0, userId, r.0.nextToken - 1))
  }

  /** The buffer of a burst is the buffer of all but its last message, with
      the last one appended unless it is blank. */
  lemma AccumulateSnoc(msgs: seq<Incoming>)
    requires msgs != []
    ensures var init := msgs[..|msgs| - 1];
      var m := msgs[|msgs| - 1];
      Accumulate(Texts(msgs)) ==
        if IsBlank(m.text) then Accumulate(Texts(init)) else AppendFragment(Accumulate(Texts(init)), m.text)
  {
    assert Texts(msgs)[..|msgs| - 1] == Texts(msgs[..|msgs| - 1]);
  }

  /** A burst with no sentence end to a user without a buffer leaves the
      state BurstLeaves describes; r is what the burst returns. */
  lemma {:induction false} BurstBuffers(s: State, userId: UserId, handler: HandlerId, msgs: seq<Incoming>, r: (State, seq<string>))
    requires Consistent(s) && userId !in s.store && NoSentenceEnd(msgs)
    requires r == Burst(s, userId, handler, msgs)
    ensures BurstLeaves(s, userId, msgs, r)
    decreases |msgs|
  {
    if msgs == [] {
      assert Texts(msgs) == [];
    } else {
      var init := msgs[..|msgs| - 1];
      assert NoSentenceEnd(init) by {
        assert forall i :: 0 <= i < |init| ==> init[i] == msgs[i];
      }
      var r1 := Burst(s, userId, handler, init);
      BurstBuffers(s, userId, handler, init, r1);
      BurstLastLeaves(s, userId, handler, msgs, r1, r);
    }
  }

  /** The last message of a burst with no sentence end keeps BurstLeaves. */
  lemma BurstLastLeaves(s: State, userId: UserId, handler: HandlerId, msgs: seq<Incoming>,
                        r1: (State, seq<string>), r: (State, seq<string>))
    requires Consistent(s) && userId !in s.store
    requires msgs != [] && !EndsWithSentenceTerminator(msgs[|msgs| - 1].text)
    requires r1 == Burst(s, userId, handler, msgs[..|msgs| - 1])
    requires r == Burst(s, userId, handler, msgs)
    requires BurstLeaves(s, userId, msgs[..|msgs| - 1], r1)
    ensures BurstLeaves(s, userId, msgs, r)
  {
    var m := msgs[|msgs| - 1];
    if IsBlank(m.text) {
      assert r == r1 by {
        assert Submit(r1.0, userId, m.text, handler, m.at) == (r1.0, None);
      }
      BurstBlankStep(s, userId, msgs, r1);
    } else {
      var r2 := Submit(r1.0, userId, m.text, handler, m.at);
      BurstTextStep(s, userId, handler, msgs, r1);
      assert r == (r2.0, r1.1);
    }
  }

  /** A blank message at the end of a burst changes nothing. */
  lemma BurstBlankStep(s: State, userId: UserId, msgs: seq<Incoming>, r1: (State, seq<string>))
    requires msgs != [] && IsBlank(msgs[|msgs| - 1].text)
    requires BurstLeaves(s, userId, msgs[..|msgs| - 1], r1)
    ensures BurstLeaves(s, userId, msgs, r1)
  {
    var init := msgs[..|msgs| - 1];
    assert Accumulate(Texts(msgs)) == Accumulate(Texts(init)) by {
      AccumulateSnoc(msgs);
    }
    assert LastTextAt(msgs, 0) == LastTextAt(init, 0);
    LeavesSame(s, userId, init, msgs, r1);
  }

  /** A message with text, not ending a sentence, at the end of a burst is
      appended to the buffer and re-arms the user's timer, without calling
      the handler. */
  lemma BurstTextStep(s: State, userId: UserId, handler: HandlerId, msgs: seq<Incoming>, r1: (State, seq<string>))
    requires Consistent(s) && userId !in s.store
    requires msgs != [] && !IsBlank(msgs[|msgs| - 1].text) && !EndsWithSentenceTerminator(msgs[|msgs| - 1].text)
    requires BurstLeaves(s, userId, msgs[..|msgs| - 1], r1)
    ensures var m := msgs[|msgs| - 1];
      var r2 := Submit(r1.0, userId, m.text, handler, m.at);
      r2.1 == None && BurstLeaves(s, userId, msgs, (r2.0, r1.1))
  {
    var init := msgs[..|msgs| - 1];
    var m := msgs[|msgs| - 1];
    var r2 := Submit(r1.0, userId, m.text, handler, m.at);
    assert Accumulate(Texts(msgs)) == AppendFragment(Accumulate(Texts(init)), m.text) by {
      AccumulateSnoc(msgs);
    }
    assert LastTextAt(msgs, 0) == m.at;
    assert && Consistent(r2.0) && r2.1 == None && r2.0.store - {userId} == s.store
           && Accumulate(Texts(msgs)) != []
           && r2.0.nextToken == r1.0.nextToken + 1
           && r2.0.store[userId] == Entry(Accumulate(Texts(msgs)), m.at, Some(r1.0.nextToken))
           && IdleBut(r2.0, userId, r1.0.nextToken) by {
      BurstStep(s, r1.0, userId, handler, init, m);
    }
    LeavesArmed(s, userId, msgs, r2.0, r1.1);
  }

  /** BurstLeaves depends on the messages only through their buffer and its
      stamp. */
  lemma LeavesSame(s: State, userId: UserId, a: seq<Incoming>, b: seq<Incoming>, r: (State, seq<string>))
    requires BurstLeaves(s, userId, a, r)
    requires Accumulate(Texts(a)) == Accumulate(Texts(b)) && LastTextAt(a, 0) == LastTextAt(b, 0)
    ensures BurstLeaves(s, userId, b, r)
  {
  }

  /** The state a burst leaves once its last message re-armed the timer. */
  lemma LeavesArmed(s: State, userId: UserId, msgs: seq<Incoming>, s2: State, args: seq<string>)
    requires args == [] && Consistent(s2) && s2.store - {userId} == s.store
    requires Accumulate(Texts(msgs)) != [] && s2.nextToken > 0 && userId in s2.store
    requires s2.store[userId] == Entry(Accumulate(Texts(msgs)), LastTextAt(msgs, 0), Some(s2.nextToken - 1))
    requires IdleBut(s2, userId, s2.nextToken - 1)
    ensures BurstLeaves(s, userId, msgs, (s2, args))
  {
  }


  /** One more message with text, not ending a sentence, after a burst. */
  lemma BurstStep(s: State, s1: State, userId: UserId, handler: HandlerId, init: seq<Incoming>, m: Incoming)
    requires Consistent(s1) && userId !in s.store && !IsBlank(m.text) && !EndsWithSentenceTerminator(m.text)
    requires s1.store - {userId} == s.store
    requires Accumulate(Texts(init)) == [] ==> s1 == s
    requires Accumulate(Texts(init)) != [] ==> userId in s1.store && s1.store[userId].buffer == Accumulate(Texts(init))
    ensures var s2 := Submit(s1, userId, m.text, handler, m.at).0;
      var buffered := AppendFragment(Accumulate(Texts(init)), m.text);
      && Consistent(s2) && Submit(s1, userId, m.text, handler, m.at).1 == None
      && s2.store - {userId} == s.store
      && buffered != [] && s2.nextToken == s1.nextToken + 1
      && s2.store == s1.store[userId := Entry(buffered, m.at, Some(s1.nextToken))]
      && IdleBut(s2, userId, s1.nextToken)
  {
    var armed := Arm(s1, userId, m.text, handler, m.at);
    assert Submit(s1, userId, m.text, handler, m.at) == (armed, None);
    assert Prior(s1, userId, m.at).buffer == Accumulate(Texts(init));
    assert Consistent(armed) by {
      ArmPreserves(s1, userId, m.text, handler, m.at);
    }
    ArmEffect(s1, userId, m.text, handler, m.at);
    UpdateThenRemove(s1.store, userId, armed.store[userId]);
    assert Trim(m.text) != [];
  }

  /** A burst whose last message ends a sentence, the others not: the handler
      is called once, at the last message, with the whole trimmed buffer: the
      trimmed fragments joined by single spaces, cut at the cap. */
  lemma BurstEndsSentence(s: State, userId: UserId, handler: HandlerId, msgs: seq<Incoming>)
    requires Consistent(s) && userId !in s.store
    requires msgs != [] && NoSentenceEnd(msgs[..|msgs| - 1]) && EndsWithSentenceTerminator(msgs[|msgs| - 1].text)
    ensures var text := Trim(Accumulate(Texts(msgs)));
      && Burst(s, userId, handler, msgs).1 == [text] && text != []
      && text == Trim(Cap(Join(Words(Texts(msgs)), ' ')))
  {
    var init := msgs[..|msgs| - 1];
    var m := msgs[|msgs| - 1];
    var r1 := Burst(s, userId, handler, init);
    var r2 := Submit(r1.0, userId, m.text, handler, m.at);
    var text := Trim(Accumulate(Texts(msgs)));
    assert Burst(s, userId, handler, msgs).1 == if r2.1.Some? then r1.1 + [r2.1.value] else r1.1;
    assert r1.1 == [] && r2.1 == Some(text) && text != [] by {
      BurstLastStep(s, userId, handler, msgs);
    }
    assert text == Trim(Cap(Join(Words(Texts(msgs)), ' '))) by {
      AccumulateIsCappedJoin(Texts(msgs));
    }
  }

  /** After a burst whose last message ends a sentence, the store is
      consistent, and the user has neither an entry nor a live timer. */
  lemma BurstEndsSentenceClears(s: State, userId: UserId, handler: HandlerId, msgs: seq<Incoming>)
    requires Consistent(s) && userId !in s.store
    requires msgs != [] && NoSentenceEnd(msgs[..|msgs| - 1]) && EndsWithSentenceTerminator(msgs[|msgs| - 1].text)
    ensures var s' := Burst(s, userId, handler, msgs).0;
      Consistent(s') && userId !in s'.store && Idle(s', userId) && s'.store == s.store
  {
    var init := msgs[..|msgs| - 1];
    var m := msgs[|msgs| - 1];
    var r1 := Burst(s, userId, handler, init);
    assert Burst(s, userId, handler, msgs).0 == Submit(r1.0, userId, m.text, handler, m.at).0;
    BurstLastStep(s, userId, handler, msgs);
  }

  /** The last message of such a burst, on the state the others leave. */
  lemma BurstLastStep(s: State, userId: UserId, handler: HandlerId, msgs: seq<Incoming>)
    requires Consistent(s) && userId !in s.store
    requires msgs != [] && NoSentenceEnd(msgs[..|msgs| - 1]) && EndsWithSentenceTerminator(msgs[|msgs| - 1].text)
    ensures var init := msgs[..|msgs| - 1];
      var m := msgs[|msgs| - 1];
      var r1 := Burst(s, userId, handler, init);
      var r2 := Submit(r1.0, userId, m.text, handler, m.at);
      var text := Trim(Accumulate(Texts(msgs)));
      && r1.1 == [] && r2.1 == Some(text) && text != []
      && Consistent(r2.0) && userId !in r2.0.store && Idle(r2.0, userId)
      && r2.0.store == s.store
  {
    var init := msgs[..|msgs| - 1];
    var m := msgs[|msgs| - 1];
    var r1 := Burst(s, userId, handler, init);
    assert Accumulate(Texts(msgs)) == AppendFragment(Accumulate(Texts(init)), m.text) by {
      AccumulateSnoc(msgs);
    }
    assert && r1.1 == [] && Consistent(r1.0) && Prior(r1.0, userId, m.at).buffer == Accumulate(Texts(init))
           && r1.0.store - {userId} == s.store by {
      BurstBuffers(s, userId, handler, init, Burst(s, userId, handler, init));
    }
    SentenceStep(r1.0, userId, handler, m);
  }



  /** A message that ends a sentence: the handler gets the trimmed buffer with
      the message appended, and the user's entry and timers are gone. */
  lemma SentenceStep(s: State, userId: UserId, handler: HandlerId, m: Incoming)
    requires Consistent(s) && EndsWithSentenceTerminator(m.text)
    ensures var (s', arg) := Submit(s, userId, m.text, handler, m.at);
      var text := Trim(AppendFragment(Prior(s, userId, m.at).buffer, m.text));
      && arg == Some(text) && text != []
      && Consistent(s') && userId !in s'.store && Idle(s', userId)
      && s'.store == s.store - {userId}
  {
    var armed := Arm(s, userId, m.text, handler, m.at);
    assert Submit(s, userId, m.text, handler, m.at) == Flush(armed, userId, m.at);
    assert Consistent(armed) by {
      ArmPreserves(s, userId, m.text, handler, m.at);
    }
    assert !IsBlank(armed.store[userId].buffer) by {
      assert EntryWellFormed(armed, userId);
    }
    assert Flush(armed, userId, m.at).0.store == armed.store - {userId} by {
      FlushCallsHandlerOnce(armed, userId, m.at);
    }
    FlushCallsHandlerOnce(armed, userId, m.at);
    FlushPreserves(armed, userId, m.at);
    assert armed.store - {userId} == s.store - {userId} by {
      ArmEffect(s, userId, m.text, handler, m.at);
      UpdateThenRemove(s.store, userId, armed.store[userId]);
    }
  }

  /** The debounce task of a buffering user's current token flushes the
      whole buffer and leaves the other users' entries as they were. */
  lemma ElapseBuffered(s1: State, userId: UserId, now: int)
    requires Consistent(s1) && s1.nextToken > 0 && userId in s1.store
    requires s1.store[userId].cancelSource == Some(s1.nextToken - 1)
    ensures Elapse(s1, s1.nextToken - 1, now).1 == Some(Trim(s1.store[userId].buffer))
    ensures Trim(s1.store[userId].buffer) != []
    ensures Elapse(s1, s1.nextToken - 1, now).0.store == s1.store - {userId}
    ensures Consistent(Elapse(s1, s1.nextToken - 1, now).0)
  {
    var t := s1.nextToken - 1;
    assert Live(s1, t) && s1.timers[t].userId == userId by {
      assert EntryWellFormed(s1, userId);
    }
    ElapseEffect(s1, t, now);
    ElapsePreserves(s1, t, now);
  }

  /** Messages of which one is not blank leave a non-empty buffer. */
  lemma HasTextAccumulates(msgs: seq<Incoming>)
    requires exists i :: 0 <= i < |msgs| && !IsBlank(msgs[i].text)
    ensures Accumulate(Texts(msgs)) != []
  {
    var i :| 0 <= i < |msgs| && !IsBlank(msgs[i].text);
    assert !IsBlank(Texts(msgs)[i]);
    AccumulateEmpty(Texts(msgs));
  }

  /** A burst with text and no sentence end, then its last debounce task
      waking: the handler is called once with the whole trimmed buffer,
      which is the capped join of the burst's words, and the user's entry is
      gone while every other user's entry is as it was before the burst.
      s1 is the state the burst leaves. */
  lemma BurstThenElapse(s: State, userId: UserId, handler: HandlerId, msgs: seq<Incoming>, now: int, s1: State)
    requires Consistent(s) && userId !in s.store && NoSentenceEnd(msgs)
    requires exists i :: 0 <= i < |msgs| && !IsBlank(msgs[i].text)
    requires s1 == Burst(s, userId, handler, msgs).0
    ensures s1.nextToken > 0
    ensures var text := Trim(Accumulate(Texts(msgs)));
      && Elapse(s1, s1.nextToken - 1, now).1 == Some(text) && text != []
      && text == Trim(Cap(Join(Words(Texts(msgs)), ' ')))
    ensures Elapse(s1, s1.nextToken - 1, now).0.store == s.store
    ensures Consistent(Elapse(s1, s1.nextToken - 1, now).0)
  {
    assert Accumulate(Texts(msgs)) != [] by {
      HasTextAccumulates(msgs);
    }
    assert && s1.nextToken > 0 && Consistent(s1) && userId in s1.store
           && s1.store[userId].buffer == Accumulate(Texts(msgs))
           && s1.store[userId].cancelSource == Some(s1.nextToken - 1)
           && s1.store - {userId} == s.store by {
      BurstBuffers(s, userId, handler, msgs, Burst(s, userId, handler, msgs));
    }
    ElapseBuffered(s1, userId, now);
    AccumulateIsCappedJoin(Texts(msgs));
  }




  // ---------------------------------------------------------------------------
  // The objects

  /** Some element of a non-empty set, for walking a collection. */
  method Pick<T>(s: set<T>) returns (x: T)
    requires s != {}
    ensures x in s
  {
    x :| x in s;
  }

  /** The per-user buffer: text, time of the last change, and the CancelSource
      of the pending debounce task. */
  class UserMessageBuffer {
    var buffer: string
    var lastUpdated: int
    var cancelSource: Option<Token>

    /** A new buffer: empty, stamped now, with no debounce task. */
    constructor (now: int)
      ensures buffer == [] && lastUpdated == now && cancelSource == None
    {
      buffer := [];
      lastUpdated := now;
      cancelSource := None;
    }

    function Snapshot(): Entry
      reads this
    {
      Entry(buffer, lastUpdated, cancelSource)
    }

    /** The locked block of HandleIncomingMessageAsync: the separator and the
        trimmed text appended, the length capped, the time stamped, and the
        CancelSource replaced by token; the replaced one is returned to be
        cancelled. */
    method Rearm(text: string, now: int, token: Token) returns (previous: Option<Token>)
      modifies this
      ensures buffer == AppendFragment(old(buffer), text)
      ensures lastUpdated == now && cancelSource == Some(token)
      ensures previous == old(cancelSource)
    {
      ghost var before := buffer;
      if |buffer| > 0 && !IsWhiteSpace(buffer[|buffer| - 1]) {
        buffer := buffer + " ";
      }
      assert buffer == before + Separator(before);
      buffer := buffer + Trim(text);
      if |buffer| > MaxBufferLength {
        buffer := buffer[..MaxBufferLength];
      }
      lastUpdated := now;
      previous := cancelSource;
      cancelSource := Some(token);
    }

    /** The first locked block of FlushBufferAsync: the trimmed text taken out,
        the buffer cleared, the CancelSource dropped (and returned to be
        cancelled), the time stamped. */
    method TakeText(now: int) returns (captured: string, previous: Option<Token>)
      modifies this
      ensures captured == Trim(old(buffer))
      ensures buffer == [] && cancelSource == None && lastUpdated == now
      ensures previous == old(cancelSource)
    {
      captured := Trim(buffer);
      buffer := [];
      previous := cancelSource;
      cancelSource := None;
      lastUpdated := now;
    }
  }

  class MessageAggregator {
    /** Buffers: the per-user buffers. */
    var buffers: map<UserId, UserMessageBuffer>
    var timers: map<Token, Timer>
    var cancelled: set<Token>
    var nextToken: Token
    /** Every call of an AI handler so far, in order. */
    ghost var calls: seq<HandlerCall>
    /** The values of the buffers, user by user. */
    ghost var store: map<UserId, Entry>

    ghost function Value(): State
      reads this`store, this`timers, this`cancelled, this`nextToken
    {
      State(store, timers, cancelled, nextToken)
    }

    /** Each user has a buffer object of its own, and store holds their values. */
    ghost predicate Synced()
      reads this`buffers, this`store, buffers.Values
    {
      && buffers.Keys == store.Keys
      && (forall k :: k in buffers ==> buffers[k].Snapshot() == store[k])
      && (forall k1, k2 :: k1 in buffers && k2 in buffers && k1 != k2 ==> buffers[k1] != buffers[k2])
    }

    ghost predicate Valid()
      reads this`buffers, this`store, this`timers, this`cancelled, this`nextToken, buffers.Values
    {
      Synced() && Consistent(Value())
    }

    /** The aggregator at start-up: no buffers, no tasks, no calls. */
    constructor ()
      ensures Valid() && Value() == Initial && calls == []
    {
      buffers := map[];
      timers := map[];
      cancelled := {};
      nextToken := 0;
      calls := [];
      store := map[];
    }

    /** HandleIncomingMessageAsync: false for blank text, which changes nothing;
        otherwise the step Submit, with the handler called if the text ends a
        sentence, and true. */
    method HandleIncomingMessage(userId: UserId, text: string, handler: HandlerId, now: int, outcome: HandlerOutcome)
      returns (accepted: bool)
      requires Valid()
      modifies this, buffers.Values
      ensures Valid()
      ensures accepted <==> !IsBlank(text)
      ensures var (s', arg) := Submit(old(Value()), userId, text, handler, now);
        && Value() == s'
        && calls == (if arg.Some? then old(calls) + [HandlerCall(userId, handler, arg.value, outcome)] else old(calls))
    {
      if IsBlank(text) {
        return false;
      }
      ghost var s := Value();
      Buffer(userId, text, handler, now);
      ghost var armed := Value();
      if EndsWithSentenceTerminator(text) {
        FlushBuffer(userId, handler, now, outcome);
        assert Submit(s, userId, text, handler, now) == Flush(armed, userId, now);
      } else {
        assert Submit(s, userId, text, handler, now) == (armed, None);
      }
      accepted := true;
    }

    /** The part of HandleIncomingMessageAsync before the sentence check: the
        step Arm. */
    method Buffer(userId: UserId, text: string, handler: HandlerId, now: int)
      requires Valid() && !IsBlank(text)
      modifies this, buffers.Values
      ensures Valid() && calls == old(calls)
      ensures Value() == Arm(old(Value()), userId, text, handler, now)
      ensures forall o :: o in buffers.Values ==> o in old(buffers.Values) || fresh(o)
    {
      ghost var s := Value();
      ArmAfterAdded(s, userId, text, handler, now);
      var b := GetOrAdd(userId, now);
      AppendAndRearm(b, userId, text, handler, now);
      assert Consistent(Value()) by {
        ArmPreserves(s, userId, text, handler, now);
      }
    }

    /** Buffers.GetOrAdd: the buffer of userId, added empty if there was none. */
    method GetOrAdd(userId: UserId, now: int) returns (b: UserMessageBuffer)
      requires Valid()
      modifies this
      ensures Valid()
      ensures buffers == old(buffers)[userId := b]
      ensures b in old(buffers.Values) || fresh(b)
      ensures Value() == Added(old(Value()), userId, now) && calls == old(calls)
    {
      ghost var s := Value();
      AddedPreserves(s, userId, now);
      if userId in buffers {
        b := buffers[userId];
        assert buffers == buffers[userId := b];
        assert store == store[userId := store[userId]];
      } else {
        b := new UserMessageBuffer(now);
        buffers := buffers[userId := b];
        store := store[userId := b.Snapshot()];
      }
    }

    /** The locked block of HandleIncomingMessageAsync: the text appended to the
        buffer b of userId, the old CancelSource cancelled and a fresh debounce
        task started. */
    method AppendAndRearm(b: UserMessageBuffer, userId: UserId, text: string, handler: HandlerId, now: int)
      requires Synced() && !IsBlank(text)
      requires userId in buffers && buffers[userId] == b
      modifies this, b
      ensures Synced() && buffers == old(buffers)
      ensures Value() == Arm(old(Value()), userId, text, handler, now) && calls == old(calls)
    {
      ghost var s := Value();
      ghost var prior := b.Snapshot();
      assert prior == Prior(s, userId, now);
      var previous := Append(b, userId, text, now);
      StartTimer(userId, handler, now, previous);
      assert Value() == ArmFrom(s, userId, prior, text, handler, now);
    }

    /** The buffer b of userId gets the text and the next token as its
        CancelSource; the replaced CancelSource is returned. */
    method Append(b: UserMessageBuffer, userId: UserId, text: string, now: int) returns (previous: Option<Token>)
      requires Synced() && userId in buffers && buffers[userId] == b
      modifies this`store, b
      ensures Synced()
      ensures store == old(store)[userId := Entry(AppendFragment(old(b.buffer), text), now, Some(nextToken))]
      ensures previous == old(b.cancelSource)
    {
      label rearming:
      previous := b.Rearm(text, now, nextToken);
      store := store[userId := b.Snapshot()];
      SyncedAfterChange@rearming(userId);
    }

    /** The previous CancelSource cancelled and a debounce task started for the
        next token. */
    method StartTimer(userId: UserId, handler: HandlerId, now: int, previous: Option<Token>)
      modifies this`cancelled, this`nextToken, this`timers
      ensures cancelled == old(cancelled) + Elements(previous)
      ensures nextToken == old(nextToken) + 1
      ensures timers == old(timers)[old(nextToken) := Timer(userId, handler, now + InactivityTimeout)]
    {
      cancelled := cancelled + Elements(previous);
      timers := timers[nextToken := Timer(userId, handler, now + InactivityTimeout)];
      nextToken := nextToken + 1;
    }

    /** FlushBufferAsync: the step Flush, calling the handler once with the
        trimmed buffer when it is not empty. */
    method FlushBuffer(userId: UserId, handler: HandlerId, now: int, outcome: HandlerOutcome)
      requires Valid()
      modifies this, buffers.Values
      ensures Valid()
      ensures var (s', arg) := Flush(old(Value()), userId, now);
        && Value() == s'
        && calls == (if arg.Some? then old(calls) + [HandlerCall(userId, handler, arg.value, outcome)] else old(calls))
    {
      if userId in buffers {
        FlushExisting(userId, handler, now, outcome);
      }
    }

    /** FlushBufferAsync once the buffer of userId is found. */
    method FlushExisting(userId: UserId, handler: HandlerId, now: int, outcome: HandlerOutcome)
      requires Valid() && userId in buffers
      modifies this, buffers.Values
      ensures Valid()
      ensures var (s', arg) := Flush(old(Value()), userId, now);
        && Value() == s'
        && calls == (if arg.Some? then old(calls) + [HandlerCall(userId, handler, arg.value, outcome)] else old(calls))
    {
      ghost var s := Value();
      assert Consistent(Flush(s, userId, now).0) by {
        FlushPreserves(s, userId, now);
      }
      var b := buffers[userId];
      assert b.Snapshot() == s.store[userId];
      var toProcess := FlushEntry(b, userId, handler, now, outcome);
      FlushSteps(s, userId, now, toProcess);
      assert Value() == Flush(s, userId, now).0;
    }

    /** The body of FlushBufferAsync on the buffer b of userId: the text taken
        and the CancelSource cancelled; then, when the text is not blank, the
        handler called and the emptied buffer removed. */
    method FlushEntry(b: UserMessageBuffer, userId: UserId, handler: HandlerId, now: int, outcome: HandlerOutcome)
      returns (toProcess: string)
      requires Synced() && userId in buffers && buffers[userId] == b
      modifies this`store, this`cancelled, this`calls, this`buffers, b
      ensures Synced()
      ensures toProcess == Trim(old(b.buffer))
      ensures cancelled == old(cancelled) + HandleOf(old(b.Snapshot()))
      ensures store == if toProcess == [] then old(store)[userId := Entry([], now, None)] else old(store) - {userId}
      ensures calls == if toProcess == [] then old(calls) else old(calls) + [HandlerCall(userId, handler, toProcess, outcome)]
    {
      toProcess := Take(b, userId, now);
      if toProcess != [] {
        calls := calls + [HandlerCall(userId, handler, toProcess, outcome)];
        // the finally block: an emptied buffer is disposed and removed
        if |b.buffer| == 0 {
          UpdateThenRemove(old(store), userId, Entry([], now, None));
          Remove(b, userId);
        }
      }
    }

    /** The first locked block of FlushBufferAsync on the buffer b of userId:
        the trimmed text taken, the CancelSource cancelled and dropped. */
    method Take(b: UserMessageBuffer, userId: UserId, now: int) returns (toProcess: string)
      requires Synced() && userId in buffers && buffers[userId] == b
      modifies this`store, this`cancelled, b
      ensures Synced() && b.buffer == [] && b.cancelSource == None
      ensures toProcess == Trim(old(b.buffer))
      ensures store == old(store)[userId := Entry([], now, None)]
      ensures cancelled == old(cancelled) + HandleOf(old(b.Snapshot()))
    {
      var previous;
      label taking:
      toProcess, previous := b.TakeText(now);
      store := store[userId := b.Snapshot()];
      SyncedAfterChange@taking(userId);
      cancelled := cancelled + Elements(previous);
    }

    /** The finally block of FlushBufferAsync: the emptied buffer b of userId
        disposed and removed from Buffers. */
    method Remove(b: UserMessageBuffer, userId: UserId)
      requires Synced() && userId in buffers && buffers[userId] == b && b.cancelSource == None
      modifies this`buffers, this`store, this`cancelled
      ensures Synced()
      ensures buffers == old(buffers) - {userId} && store == old(store) - {userId}
      ensures cancelled == old(cancelled)
    {
      cancelled := cancelled + HandleOf(b.Snapshot());
      label removing:
      buffers := buffers - {userId};
      store := store - {userId};
      SyncedAfterRemoval@removing(userId);
    }

    /** The buffer of userId dropped from Buffers and its value from store:
        still in step. */
    twostate lemma SyncedAfterRemoval(userId: UserId)
      requires old(Synced())
      requires buffers == old(buffers) - {userId} && store == old(store) - {userId}
      requires forall k :: k in buffers ==> unchanged(buffers[k])
      ensures Synced()
    {
    }

    /** Only the buffer of userId has changed, and store records its new
        value: still in step. */
    twostate lemma SyncedAfterChange(userId: UserId)
      requires old(Synced()) && userId in buffers
      requires buffers == old(buffers) && store == old(store)[userId := buffers[userId].Snapshot()]
      requires forall k :: k in buffers && k != userId ==> unchanged(buffers[k])
      ensures Synced()
    {
      forall k | k in buffers
        ensures buffers[k].Snapshot() == store[k]
      {
        if k != userId {
          assert buffers[k] != buffers[userId];
        }
      }
    }

    /** The debounce task of token, its delay over: the step Elapse. */
    method TimerElapsed(token: Token, now: int, outcome: HandlerOutcome)
      requires Valid()
      requires token in timers && timers[token].due <= now
      modifies this, buffers.Values
      ensures Valid()
      ensures var (s', arg) := Elapse(old(Value()), token, now);
        && Value() == s'
        && calls == (if arg.Some? then old(calls) + [HandlerCall(old(timers)[token].userId, old(timers)[token].handler, arg.value, outcome)] else old(calls))
    {
      ghost var s := Value();
      ElapsePreserves(s, token, now);
      var t := timers[token];
      if token !in cancelled {
        FlushBuffer(t.userId, t.handler, now, outcome);
      }
      timers := timers - {token};
    }

    /** DisposeAll: every buffer's CancelSource cancelled, the buffers cleared. */
    method DisposeAll()
      requires Valid()
      modifies this
      ensures Valid()
      ensures Value() == Disposed(old(Value())) && calls == old(calls)
    {
      ghost var s := Value();
      DisposeAllEffect(s);
      CancelEach();
      buffers := map[];
      store := map[];
    }

    /** The foreach of DisposeAll: each buffer disposed, that is, its
        CancelSource cancelled. */
    method CancelEach()
      requires buffers.Keys == store.Keys
      requires forall k :: k in buffers ==> buffers[k].Snapshot() == store[k]
      modifies this`cancelled
      ensures cancelled == old(cancelled) + Handles(store, store.Keys)
    {
      var keys := buffers.Keys;
      ghost var done: set<UserId> := {};
      while keys != {}
        invariant keys !! done && keys + done == store.Keys
        invariant cancelled == old(cancelled) + Handles(store, done)
        decreases keys
      {
        var k := Pick(keys);
        HandlesInsert(store, done, k);
        DisposeBuffer(k);
        keys := keys - {k};
        done := done + {k};
      }
    }

    /** UserMessageBuffer.Dispose for the buffer of k: its CancelSource cancelled. */
    method DisposeBuffer(k: UserId)
      requires k in buffers && k in store && buffers[k].Snapshot() == store[k]
      modifies this`cancelled
      ensures cancelled == old(cancelled) + HandleOf(store[k])
    {
      cancelled := cancelled + Elements(buffers[k].cancelSource);
    }
  }
}
