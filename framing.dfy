/** What `SimpleSerial.SplitString`, `ScrubStringArray` and `Deserialize`
    compute, as functions, and the properties of the delimiter-based framer. */
module Framing {
  import opened StringSplit

  /** What SplitString appends to each message it returns. */
  function Suffix(delimiter: string, includeDelimiterInOutput: bool): string {
    if includeDelimiterInOutput then delimiter else ""
  }

  /** ScrubStringArray on values: the entries different from `removeString`,
      in order, each with `delimiter` appended. */
  function Scrub(entries: seq<string>, removeString: string, delimiter: string): seq<string>
    decreases |entries|
  {
    if entries == [] then []
    else
      var last := entries[|entries| - 1];
      Scrub(entries[..|entries| - 1], removeString, delimiter)
      + (if last == removeString then [] else [last + delimiter])
  }

  /** The remainder SplitString hands back: the last segment of the split. */
  function SplitRemainder(input: string, delimiter: string): string {
    var segments := Split(input, delimiter);
    segments[|segments| - 1]
  }

  /** The messages SplitString returns: the segments with the last one blanked,
      scrubbed of empty entries. */
  function SplitMessages(input: string, delimiter: string, includeDelimiterInOutput: bool): seq<string> {
    var segments := Split(input, delimiter);
    Scrub(segments[..|segments| - 1] + [""], "", Suffix(delimiter, includeDelimiterInOutput))
  }

  function Concat(parts: seq<string>): string
    decreases |parts|
  {
    if parts == [] then [] else Concat(parts[..|parts| - 1]) + parts[|parts| - 1]
  }

  /** Each message followed by the delimiter, as a sender terminates it
      (`WriteLine` does so for the default "\r\n"). */
  function Terminate(messages: seq<string>, delimiter: string): string
    decreases |messages|
  {
    if messages == [] then []
    else Terminate(messages[..|messages| - 1], delimiter) + messages[|messages| - 1] + delimiter
  }

  /** Messages produced so far and the text not yet terminated. */
  datatype FramerState = FramerState(messages: seq<string>, pending: string)

  /** A reference framer that works one character at a time: a separator ends
      the pending text as a message unless it is empty; any other character
      is added to the pending text. */
  function FeedChar(state: FramerState, c: char, delimiter: string, includeDelimiterInOutput: bool): FramerState {
    if !IsSeparator(delimiter, c) then FramerState(state.messages, state.pending + [c])
    else if state.pending == "" then FramerState(state.messages, "")
    else FramerState(state.messages + [state.pending + Suffix(delimiter, includeDelimiterInOutput)], "")
  }

  function FeedChars(state: FramerState, s: string, delimiter: string, includeDelimiterInOutput: bool): FramerState
    decreases |s|
  {
    if s == [] then state
    else FeedChar(FeedChars(state, s[..|s| - 1], delimiter, includeDelimiterInOutput), s[|s| - 1], delimiter, includeDelimiterInOutput)
  }

  /** The reference framer run over a whole input from the empty state. */
  function CharFramer(s: string, delimiter: string, includeDelimiterInOutput: bool): FramerState {
    FeedChars(FramerState([], ""), s, delimiter, includeDelimiterInOutput)
  }

  /** Successive Deserialize calls, one per chunk, starting from `remainder`:
      all messages returned, in order, and the remainder left at the end. */
  function FeedChunks(remainder: string, chunks: seq<string>, delimiter: string): FramerState
    decreases |chunks|
  {
    if chunks == [] then FramerState([], remainder)
    else
      var text := remainder + chunks[0];
      var rest := FeedChunks(SplitRemainder(text, delimiter), chunks[1..], delimiter);
      FramerState(SplitMessages(text, delimiter, false) + rest.messages, rest.pending)
  }

  // ---------------------------------------------------------------------------
  // ScrubStringArray

  lemma {:induction false} ScrubAppend(a: seq<string>, b: seq<string>, removeString: string, delimiter: string)
    ensures Scrub(a + b, removeString, delimiter) == Scrub(a, removeString, delimiter) + Scrub(b, removeString, delimiter)
    decreases |b|
  {
    if b != [] {
      var init := b[..|b| - 1];
      assert (a + b)[..|a + b| - 1] == a + init;
      ScrubAppend(a, init, removeString, delimiter);
    } else {
      assert a + b == a;
    }
  }

  /** A prefix never scrubs to more entries than the whole. */
  lemma {:induction false} ScrubPrefix(entries: seq<string>, k: nat, removeString: string, delimiter: string)
    requires k <= |entries|
    ensures |Scrub(entries[..k], removeString, delimiter)| <= |Scrub(entries, removeString, delimiter)|
  {
    assert entries == entries[..k] + entries[k..];
    ScrubAppend(entries[..k], entries[k..], removeString, delimiter);
  }

  /** ScrubStringArray's output is as long as the number of input entries
      different from `removeString`. */
  lemma {:induction false} ScrubLength(entries: seq<string>, removeString: string, delimiter: string)
    ensures |Scrub(entries, removeString, delimiter)| == |set k | 0 <= k < |entries| && entries[k] != removeString|
    decreases |entries|
  {
    if entries != [] {
      var n := |entries| - 1;
      var init := entries[..n];
      ScrubLength(init, removeString, delimiter);
      var before := set k | 0 <= k < |init| && init[k] != removeString;
      var after := set k | 0 <= k < |entries| && entries[k] != removeString;
      if entries[n] == removeString {
        assert after == before;
      } else {
        assert after == before + {n};
        assert n !in before;
      }
    }
  }

  /** Entry k of the input, when kept, is the output entry whose position is
      the number of entries kept before it, with the delimiter appended. */
  lemma {:induction false} ScrubKeepsOrder(entries: seq<string>, k: nat, removeString: string, delimiter: string)
    requires k < |entries| && entries[k] != removeString
    ensures |Scrub(entries[..k], removeString, delimiter)| < |Scrub(entries, removeString, delimiter)|
    ensures Scrub(entries, removeString, delimiter)[|Scrub(entries[..k], removeString, delimiter)|] == entries[k] + delimiter
  {
    assert entries == entries[..k + 1] + entries[k + 1..];
    assert entries[..k + 1][..k] == entries[..k];
    ScrubAppend(entries[..k + 1], entries[k + 1..], removeString, delimiter);
  }

  /** Every output entry comes from a kept input entry: the m-th kept one. */
  lemma {:induction false} ScrubEntryOrigin(entries: seq<string>, m: nat, removeString: string, delimiter: string)
    returns (k: nat)
    requires m < |Scrub(entries, removeString, delimiter)|
    ensures k < |entries| && entries[k] != removeString
    ensures |Scrub(entries[..k], removeString, delimiter)| == m
    ensures Scrub(entries, removeString, delimiter)[m] == entries[k] + delimiter
    decreases |entries|
  {
    var n := |entries| - 1;
    var init := entries[..n];
    if m < |Scrub(init, removeString, delimiter)| {
      k := ScrubEntryOrigin(init, m, removeString, delimiter);
      assert init[..k] == entries[..k];
    } else {
      k := n;
    }
  }


  // ---------------------------------------------------------------------------
  // SplitString agrees with the character-at-a-time framer

  /** The blank entry SplitString leaves in the last slot is scrubbed away. */
  lemma ScrubBlank(entries: seq<string>, suffix: string)
    ensures Scrub(entries + [""], "", suffix) == Scrub(entries, "", suffix)
  {
  }

  /** Scrubbing one more segment. */
  lemma ScrubSnoc(entries: seq<string>, last: string, suffix: string)
    ensures Scrub(entries + [last], "", suffix)
         == Scrub(entries, "", suffix) + (if last == "" then [] else [last + suffix])
  {
  }

  lemma SplitSnocSeparator(s: string, c: char, delimiter: string)
    requires IsSeparator(delimiter, c)
    ensures Split(s + [c], delimiter) == Split(s, delimiter) + [""]
  {
  }

  lemma SplitSnocOther(s: string, c: char, delimiter: string)
    requires !IsSeparator(delimiter, c)
    ensures var front := Split(s, delimiter);
      Split(s + [c], delimiter) == front[..|front| - 1] + [front[|front| - 1] + [c]]
  {
  }

  /** How one more character changes SplitString's result: a separator turns a
      non-empty remainder into a message; any other character extends the
      remainder. This is FeedChar's rule. */
  lemma SplitSnoc(s: string, c: char, delimiter: string, includeDelimiterInOutput: bool)
    ensures FramerState(SplitMessages(s + [c], delimiter, includeDelimiterInOutput), SplitRemainder(s + [c], delimiter))
         == FeedChar(FramerState(SplitMessages(s, delimiter, includeDelimiterInOutput), SplitRemainder(s, delimiter)),
                     c, delimiter, includeDelimiterInOutput)
  {
    var suffix := Suffix(delimiter, includeDelimiterInOutput);
    var front := Split(s, delimiter);
    var n := |front| - 1;
    var init := front[..n];
    assert front == init + [front[n]];
    ScrubBlank(init, suffix);
    if IsSeparator(delimiter, c) {
      SplitSnocSeparator(s, c, delimiter);
      var segments := front + [""];
      assert segments[..|segments| - 1] == front;
      ScrubBlank(front, suffix);
      ScrubSnoc(init, front[n], suffix);
    } else {
      SplitSnocOther(s, c, delimiter);
      var segments := init + [front[n] + [c]];
      assert segments[..|segments| - 1] == init;
    }
  }

  /** SplitString and the character-at-a-time reference framer agree on every input. */
  lemma {:induction false} SplitIsCharFramer(s: string, delimiter: string, includeDelimiterInOutput: bool)
    ensures CharFramer(s, delimiter, includeDelimiterInOutput)
         == FramerState(SplitMessages(s, delimiter, includeDelimiterInOutput), SplitRemainder(s, delimiter))
    decreases |s|
  {
    if s == [] {
      assert [""][..0] == [];
    } else {
      var init := s[..|s| - 1];
      assert s == init + [s[|s| - 1]];
      SplitIsCharFramer(init, delimiter, includeDelimiterInOutput);
      SplitSnoc(init, s[|s| - 1], delimiter, includeDelimiterInOutput);
    }
  }

  // ---------------------------------------------------------------------------
  // The character-at-a-time framer

  lemma {:induction false} FeedCharsAppend(state: FramerState, a: string, b: string, delimiter: string, includeDelimiterInOutput: bool)
    ensures FeedChars(state, a + b, delimiter, includeDelimiterInOutput)
         == FeedChars(FeedChars(state, a, delimiter, includeDelimiterInOutput), b, delimiter, includeDelimiterInOutput)
    decreases |b|
  {
    if b == [] {
      assert a + b == a;
    } else {
      assert a + b == (a + b[..|b| - 1]) + [b[|b| - 1]];
      FeedCharsAppend(state, a, b[..|b| - 1], delimiter, includeDelimiterInOutput);
    }
  }

  /** Messages already produced are never touched again. */
  lemma {:induction false} FeedCharsKeepsMessages(messages: seq<string>, pending: string, s: string, delimiter: string, includeDelimiterInOutput: bool)
    ensures FeedChars(FramerState(messages, pending), s, delimiter, includeDelimiterInOutput).pending
         == FeedChars(FramerState([], pending), s, delimiter, includeDelimiterInOutput).pending
    ensures FeedChars(FramerState(messages, pending), s, delimiter, includeDelimiterInOutput).messages
         == messages + FeedChars(FramerState([], pending), s, delimiter, includeDelimiterInOutput).messages
    decreases |s|
  {
    if s != [] {
      FeedCharsKeepsMessages(messages, pending, s[..|s| - 1], delimiter, includeDelimiterInOutput);
    }
  }

  lemma {:induction false} FeedSeparatorFree(state: FramerState, t: string, delimiter: string, includeDelimiterInOutput: bool)
    requires SeparatorFree(delimiter, t)
    ensures FeedChars(state, t, delimiter, includeDelimiterInOutput) == FramerState(state.messages, state.pending + t)
    decreases |t|
  {
    if t == [] {
      assert state.pending + t == state.pending;
    } else {
      var init := t[..|t| - 1];
      FeedSeparatorFree(state, init, delimiter, includeDelimiterInOutput);
      assert state.pending + t == (state.pending + init) + [t[|t| - 1]];
    }
  }

  lemma {:induction false} FeedSeparators(state: FramerState, t: string, delimiter: string, includeDelimiterInOutput: bool)
    requires t != [] && forall i :: 0 <= i < |t| ==> IsSeparator(delimiter, t[i])
    ensures FeedChars(state, t, delimiter, includeDelimiterInOutput) == FeedChar(state, t[0], delimiter, includeDelimiterInOutput)
    decreases |t|
  {
    var init := t[..|t| - 1];
    if init != [] {
      FeedSeparators(state, init, delimiter, includeDelimiterInOutput);
    } else {
      assert t == [t[0]];
    }
  }

  /** A well-formed framer state: every message a non-empty, separator-free
      body followed by the suffix, and a separator-free pending text. */
  predicate WellFormedState(state: FramerState, delimiter: string, includeDelimiterInOutput: bool) {
    (forall i :: 0 <= i < |state.messages| ==>
       WellFramed(state.messages[i], delimiter, Suffix(delimiter, includeDelimiterInOutput)))
    && SeparatorFree(delimiter, state.pending)
  }

  /** A message as SplitString returns it: a non-empty, separator-free body
      followed by `suffix`. */
  predicate WellFramed(m: string, delimiter: string, suffix: string) {
    |m| > |suffix| && m[|m| - |suffix|..] == suffix && SeparatorFree(delimiter, m[..|m| - |suffix|])
  }

  lemma {:induction false} FeedCharsWellFormed(state: FramerState, s: string, delimiter: string, includeDelimiterInOutput: bool)
    requires WellFormedState(state, delimiter, includeDelimiterInOutput)
    ensures WellFormedState(FeedChars(state, s, delimiter, includeDelimiterInOutput), delimiter, includeDelimiterInOutput)
    decreases |s|
  {
    if s != [] {
      var before := FeedChars(state, s[..|s| - 1], delimiter, includeDelimiterInOutput);
      FeedCharsWellFormed(state, s[..|s| - 1], delimiter, includeDelimiterInOutput);
      var p, suffix := before.pending, Suffix(delimiter, includeDelimiterInOutput);
      var c := s[|s| - 1];
      if IsSeparator(delimiter, c) && p != "" {
        assert (p + suffix)[..|p|] == p && (p + suffix)[|p|..] == suffix;
        assert WellFramed(p + suffix, delimiter, suffix);
      } else if !IsSeparator(delimiter, c) {
        assert SeparatorFree(delimiter, p + [c]);
      }
    }
  }

  lemma ConcatSnoc(parts: seq<string>, p: string)
    ensures Concat(parts + [p]) == Concat(parts) + p
  {
  }

  lemma {:induction false} FeedCharsConserves(state: FramerState, s: string, delimiter: string)
    ensures Concat(FeedChars(state, s, delimiter, false).messages) + FeedChars(state, s, delimiter, false).pending
         == Concat(state.messages) + state.pending + Strip(s, delimiter)
    decreases |s|
  {
    if s != [] {
      var init, c := s[..|s| - 1], s[|s| - 1];
      var before := FeedChars(state, init, delimiter, false);
      var after := FeedChars(state, s, delimiter, false);
      var start := Concat(state.messages) + state.pending;
      FeedCharsConserves(state, init, delimiter);
      assert after == FeedChar(before, c, delimiter, false);
      if !IsSeparator(delimiter, c) {
        assert Strip(s, delimiter) == Strip(init, delimiter) + [c];
        calc {
          Concat(after.messages) + after.pending;
          Concat(before.messages) + (before.pending + [c]);
          (Concat(before.messages) + before.pending) + [c];
          start + Strip(init, delimiter) + [c];
        }
      } else {
        assert Strip(s, delimiter) == Strip(init, delimiter);
        if before.pending != "" {
          assert before.pending + "" == before.pending;
          ConcatSnoc(before.messages, before.pending);
        }
      }
    }
  }

  /** Messages with the delimiter appended, entry by entry. */
  predicate DelimiterAppended(withDelimiter: seq<string>, plain: seq<string>, delimiter: string) {
    |withDelimiter| == |plain| && forall i :: 0 <= i < |plain| ==> withDelimiter[i] == plain[i] + delimiter
  }

  lemma {:induction false} FeedCharsAppendsDelimiter(withDelimiter: FramerState, plain: FramerState, s: string, delimiter: string)
    requires DelimiterAppended(withDelimiter.messages, plain.messages, delimiter)
    requires withDelimiter.pending == plain.pending
    ensures DelimiterAppended(FeedChars(withDelimiter, s, delimiter, true).messages, FeedChars(plain, s, delimiter, false).messages, delimiter)
    ensures FeedChars(withDelimiter, s, delimiter, true).pending == FeedChars(plain, s, delimiter, false).pending
    decreases |s|
  {
    if s != [] {
      FeedCharsAppendsDelimiter(withDelimiter, plain, s[..|s| - 1], delimiter);
      var p := FeedChars(plain, s[..|s| - 1], delimiter, false).pending;
      assert p + "" == p;
    }
  }

  /** `r` is the separator-free tail of `input` that follows its last
      separator (all of `input` when it has none). */
  predicate TrailingRun(input: string, r: string, delimiter: string) {
    SeparatorFree(delimiter, r) && |r| <= |input| && r == input[|input| - |r|..]
    && (|r| == |input| || IsSeparator(delimiter, input[|input| - |r| - 1]))
  }

  lemma TrailingRunSnoc(init: string, r: string, c: char, delimiter: string)
    requires TrailingRun(init, r, delimiter)
    ensures IsSeparator(delimiter, c) ==> TrailingRun(init + [c], "", delimiter)
    ensures !IsSeparator(delimiter, c) ==> TrailingRun(init + [c], r + [c], delimiter)
  {
  }

  /** The character-at-a-time framer's pending text is the separator-free
      tail of what it was fed after its last separator. */
  lemma {:induction false} CharFramerPending(input: string, delimiter: string, includeDelimiterInOutput: bool)
    ensures TrailingRun(input, CharFramer(input, delimiter, includeDelimiterInOutput).pending, delimiter)
    decreases |input|
  {
    if input != [] {
      var init, c := input[..|input| - 1], input[|input| - 1];
      assert input == init + [c];
      CharFramerPending(init, delimiter, includeDelimiterInOutput);
      TrailingRunSnoc(init, CharFramer(init, delimiter, includeDelimiterInOutput).pending, c, delimiter);
    }
  }

  /** A trailing run is empty exactly when the input is empty or ends in a separator. */
  lemma TrailingRunEmpty(input: string, r: string, delimiter: string)
    requires TrailingRun(input, r, delimiter)
    ensures r == "" <==> (input == "" || IsSeparator(delimiter, input[|input| - 1]))
  {
  }

  // ---------------------------------------------------------------------------
  // Properties of SplitString

  /** The remainder holds no separator; it is empty exactly when the input is
      empty or ends in a separator, and otherwise it is the longest
      separator-free tail of the input. */
  lemma RemainderIsTrailingRun(input: string, delimiter: string)
    ensures SeparatorFree(delimiter, SplitRemainder(input, delimiter))
    ensures |SplitRemainder(input, delimiter)| <= |input|
    ensures SplitRemainder(input, delimiter) == input[|input| - |SplitRemainder(input, delimiter)|..]
    ensures |SplitRemainder(input, delimiter)| == |input|
            || IsSeparator(delimiter, input[|input| - |SplitRemainder(input, delimiter)| - 1])
    ensures SplitRemainder(input, delimiter) == ""
            <==> (input == "" || IsSeparator(delimiter, input[|input| - 1]))
  {
    SplitIsCharFramer(input, delimiter, false);
    CharFramerPending(input, delimiter, false);
    TrailingRunEmpty(input, SplitRemainder(input, delimiter), delimiter);
  }

  /** Every message is a non-empty, separator-free body followed by the
      suffix: the delimiter when it is included, nothing otherwise. */
  lemma MessagesWellFormed(input: string, delimiter: string, includeDelimiterInOutput: bool)
    ensures forall i :: 0 <= i < |SplitMessages(input, delimiter, includeDelimiterInOutput)| ==>
      WellFramed(SplitMessages(input, delimiter, includeDelimiterInOutput)[i], delimiter, Suffix(delimiter, includeDelimiterInOutput))
  {
    SplitIsCharFramer(input, delimiter, includeDelimiterInOutput);
    FeedCharsWellFormed(FramerState([], ""), input, delimiter, includeDelimiterInOutput);
  }

  /** No message is empty, so back-to-back separators such as the '\r' and
      '\n' of "\r\n" never produce one; without the delimiter, no message
      contains a separator. */
  lemma NoEmptyMessages(input: string, delimiter: string)
    ensures forall i :: 0 <= i < |SplitMessages(input, delimiter, false)| ==>
      SplitMessages(input, delimiter, false)[i] != ""
      && SeparatorFree(delimiter, SplitMessages(input, delimiter, false)[i])
    ensures forall i :: 0 <= i < |SplitMessages(input, delimiter, true)| ==>
      SplitMessages(input, delimiter, true)[i] != ""
  {
    MessagesWellFormed(input, delimiter, false);
    MessagesWellFormed(input, delimiter, true);
    forall i | 0 <= i < |SplitMessages(input, delimiter, false)|
      ensures SeparatorFree(delimiter, SplitMessages(input, delimiter, false)[i])
    {
      var m := SplitMessages(input, delimiter, false)[i];
      assert WellFramed(m, delimiter, "");
      assert m[..|m| - 0] == m;
    }
    forall i | 0 <= i < |SplitMessages(input, delimiter, true)|
      ensures SplitMessages(input, delimiter, true)[i] != ""
    {
      assert WellFramed(SplitMessages(input, delimiter, true)[i], delimiter, delimiter);
    }
  }

  /** With the delimiter included, the messages are the plain ones, each with
      the delimiter appended. */
  lemma IncludedDelimiter(input: string, delimiter: string)
    ensures |SplitMessages(input, delimiter, true)| == |SplitMessages(input, delimiter, false)|
    ensures forall i :: 0 <= i < |SplitMessages(input, delimiter, true)| ==>
      SplitMessages(input, delimiter, true)[i] == SplitMessages(input, delimiter, false)[i] + delimiter
  {
    SplitIsCharFramer(input, delimiter, true);
    SplitIsCharFramer(input, delimiter, false);
    FeedCharsAppendsDelimiter(FramerState([], ""), FramerState([], ""), input, delimiter);
  }

  /** Conservation: the messages followed by the remainder are the input with
      its separator characters deleted. */
  lemma Conservation(input: string, delimiter: string)
    ensures Concat(SplitMessages(input, delimiter, false)) + SplitRemainder(input, delimiter) == Strip(input, delimiter)
  {
    SplitIsCharFramer(input, delimiter, false);
    FeedCharsConserves(FramerState([], ""), input, delimiter);
  }

  /** Input without separators, including the empty input: no message, and
      all of the input is kept as the remainder. */
  lemma NoSeparatorNoMessage(input: string, delimiter: string, includeDelimiterInOutput: bool)
    requires SeparatorFree(delimiter, input)
    ensures SplitMessages(input, delimiter, includeDelimiterInOutput) == []
    ensures SplitRemainder(input, delimiter) == input
  {
    SplitIsCharFramer(input, delimiter, includeDelimiterInOutput);
    FeedSeparatorFree(FramerState([], ""), input, delimiter, includeDelimiterInOutput);
  }

  /** Input made only of separator characters gives no message and no remainder. */
  lemma AllSeparatorsNoMessage(input: string, delimiter: string, includeDelimiterInOutput: bool)
    requires forall i :: 0 <= i < |input| ==> IsSeparator(delimiter, input[i])
    ensures SplitMessages(input, delimiter, includeDelimiterInOutput) == []
    ensures SplitRemainder(input, delimiter) == ""
  {
    SplitIsCharFramer(input, delimiter, includeDelimiterInOutput);
    if input != [] {
      FeedSeparators(FramerState([], ""), input, delimiter, includeDelimiterInOutput);
    }
  }

  /** A non-empty, separator-free message followed by the delimiter is framed
      as exactly that message. */
  lemma FeedTerminated(messages: seq<string>, m: string, delimiter: string)
    requires delimiter != "" && m != "" && SeparatorFree(delimiter, m)
    ensures FeedChars(FramerState(messages, ""), m + delimiter, delimiter, false) == FramerState(messages + [m], "")
  {
    FeedCharsAppend(FramerState(messages, ""), m, delimiter, delimiter, false);
    FeedSeparatorFree(FramerState(messages, ""), m, delimiter, false);
    assert "" + m == m;
    assert forall i :: 0 <= i < |delimiter| ==> IsSeparator(delimiter, delimiter[i]);
    FeedSeparators(FramerState(messages, m), delimiter, delimiter, false);
    assert m + "" == m;
  }

  lemma {:induction false} CharFramerRoundTrip(messages: seq<string>, delimiter: string)
    requires delimiter != ""
    requires forall i :: 0 <= i < |messages| ==> messages[i] != "" && SeparatorFree(delimiter, messages[i])
    ensures CharFramer(Terminate(messages, delimiter), delimiter, false) == FramerState(messages, "")
    decreases |messages|
  {
    if messages != [] {
      var init, m := messages[..|messages| - 1], messages[|messages| - 1];
      var framed := Terminate(init, delimiter);
      CharFramerRoundTrip(init, delimiter);
      assert Terminate(messages, delimiter) == framed + (m + delimiter);
      FeedCharsAppend(FramerState([], ""), framed, m + delimiter, delimiter, false);
      FeedTerminated(init, m, delimiter);
      assert init + [m] == messages;
    }
  }

  /** Round trip with the sending side: messages that are non-empty and free of
      separators, each followed by the delimiter, then an unterminated tail,
      split back into exactly those messages and that tail. */
  lemma TerminatedRoundTrip(messages: seq<string>, tail: string, delimiter: string)
    requires delimiter != ""
    requires forall i :: 0 <= i < |messages| ==> messages[i] != "" && SeparatorFree(delimiter, messages[i])
    requires SeparatorFree(delimiter, tail)
    ensures SplitMessages(Terminate(messages, delimiter) + tail, delimiter, false) == messages
    ensures SplitRemainder(Terminate(messages, delimiter) + tail, delimiter) == tail
  {
    var framed := Terminate(messages, delimiter);
    CharFramerRoundTrip(messages, delimiter);
    FeedCharsAppend(FramerState([], ""), framed, tail, delimiter, false);
    FeedSeparatorFree(FramerState(messages, ""), tail, delimiter, false);
    assert "" + tail == tail;
    SplitIsCharFramer(framed + tail, delimiter, false);
  }

  /** The example from SplitString's documentation comment: the text
      "First message.\r\nSecond message.\r\nThird message.\r\nFourth me",
      written below as its pieces, gives three messages and the remainder
      "Fourth me". */
  lemma DocumentedExample()
    ensures SplitMessages("First message." + "\r\n" + "Second message." + "\r\n" + "Third message." + "\r\n" + "Fourth me", "\r\n", false)
         == ["First message.", "Second message.", "Third message."]
    ensures SplitMessages("First message." + "\r\n" + "Second message." + "\r\n" + "Third message." + "\r\n" + "Fourth me", "\r\n", true)
         == ["First message." + "\r\n", "Second message." + "\r\n", "Third message." + "\r\n"]
    ensures SplitRemainder("First message." + "\r\n" + "Second message." + "\r\n" + "Third message." + "\r\n" + "Fourth me", "\r\n")
         == "Fourth me"
  {
    var input := "First message." + "\r\n" + "Second message." + "\r\n" + "Third message." + "\r\n" + "Fourth me";
    var messages := ["First message.", "Second message.", "Third message."];
    assert messages[..2] == ["First message.", "Second message."];
    assert messages[..2][..1] == ["First message."];
    assert ["First message."][..0] == [];
    assert Terminate(messages, "\r\n") + "Fourth me" == input;
    assert forall i :: 0 <= i < |messages| ==> messages[i] != "" && SeparatorFree("\r\n", messages[i]);
    assert SeparatorFree("\r\n", "Fourth me");
    TerminatedRoundTrip(messages, "Fourth me", "\r\n");
    IncludedDelimiter(input, "\r\n");
  }

  // ---------------------------------------------------------------------------
  // Deserialize across chunks

  /** Splitting `a + b` is splitting `a`, then splitting `a`'s remainder
      followed by `b`. */
  lemma SplitAppend(a: string, b: string, delimiter: string)
    ensures SplitMessages(a + b, delimiter, false)
         == SplitMessages(a, delimiter, false) + SplitMessages(SplitRemainder(a, delimiter) + b, delimiter, false)
    ensures SplitRemainder(a + b, delimiter) == SplitRemainder(SplitRemainder(a, delimiter) + b, delimiter)
  {
    var ms, r := SplitMessages(a, delimiter, false), SplitRemainder(a, delimiter);
    SplitIsCharFramer(a, delimiter, false);
    SplitIsCharFramer(a + b, delimiter, false);
    SplitIsCharFramer(r + b, delimiter, false);
    FeedCharsAppend(FramerState([], ""), a, b, delimiter, false);
    FeedCharsKeepsMessages(ms, r, b, delimiter, false);
    RemainderIsTrailingRun(a, delimiter);
    FeedSeparatorFree(FramerState([], ""), r, delimiter, false);
    assert "" + r == r;
    FeedCharsAppend(FramerState([], ""), r, b, delimiter, false);
  }

  lemma {:induction false} ConcatAppend(a: seq<string>, b: seq<string>)
    ensures Concat(a + b) == Concat(a) + Concat(b)
    decreases |b|
  {
    if b == [] {
      assert a + b == a;
    } else {
      assert a + b == (a + b[..|b| - 1]) + [b[|b| - 1]];
      ConcatAppend(a, b[..|b| - 1]);
      ConcatSnoc(a + b[..|b| - 1], b[|b| - 1]);
      ConcatSnoc(b[..|b| - 1], b[|b| - 1]);
      assert b[..|b| - 1] + [b[|b| - 1]] == b;
    }
  }

  lemma ConcatCons(p: string, parts: seq<string>)
    ensures Concat([p] + parts) == p + Concat(parts)
  {
    ConcatAppend([p], parts);
    assert Concat([p]) == Concat([]) + p;
  }

  lemma ConcatFirst(remainder: string, chunks: seq<string>)
    requires chunks != []
    ensures remainder + Concat(chunks) == (remainder + chunks[0]) + Concat(chunks[1..])
  {
    ConcatCons(chunks[0], chunks[1..]);
    assert [chunks[0]] + chunks[1..] == chunks;
  }

  /** Chunk-boundary independence: one Deserialize call per chunk returns, all
      together, the messages of one call on the whole text, and leaves the
      same remainder. With no chunk at all there is no call, so the starting
      remainder must then be one a split can leave behind. */
  lemma {:induction false} ChunkBoundaryIndependence(remainder: string, chunks: seq<string>, delimiter: string)
    requires chunks != [] || SeparatorFree(delimiter, remainder)
    ensures FeedChunks(remainder, chunks, delimiter)
         == FramerState(SplitMessages(remainder + Concat(chunks), delimiter, false),
                        SplitRemainder(remainder + Concat(chunks), delimiter))
    decreases |chunks|
  {
    var whole := remainder + Concat(chunks);
    if chunks == [] {
      assert whole == remainder;
      NoSeparatorNoMessage(remainder, delimiter, false);
    } else {
      var text, rest := remainder + chunks[0], chunks[1..];
      var r := SplitRemainder(text, delimiter);
      RemainderIsTrailingRun(text, delimiter);
      ChunkBoundaryIndependence(r, rest, delimiter);
      ConcatFirst(remainder, chunks);
      SplitAppend(text, Concat(rest), delimiter);
    }
  }

}
