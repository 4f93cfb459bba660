/** handleUserQuery: the page's answer to one recognised query. It records
    the query's language, stops what is being spoken, waits for the
    backend, falls back to a fixed apology in the recorded language when
    the backend call fails, normalizes the answer for speech, and speaks it
    sentence by sentence.

    The `await` splits the handler in two: BeginUserQuery runs before it
    and FinishUserQuery after it, so other events (another query, a
    synthesis settling, a cancel settling) can come in between. The
    backend's answer is a parameter. */
module Assistant {
  import opened Wrappers
  import opened Chars
  import opened TtsNormalizer
  import opened Sentences
  import opened Speech

  /** The outcome of `await callChatbotBackend(userQuery)`: the answer, or
      an exception. */
  datatype Reply = Answer(text: string) | Failed

  /** The apology spoken to a user who wrote in Arabic, written in three
      pieces (as the French one is) so that its letters can be checked. */
  const ArabicFallback: string := "وقع خطأ أثناء" + " الاتصال بالخادم." + " حاول مرة أخرى."

  /** The apology spoken to anyone else; the apostrophe is U+2019. */
  const FrenchFallback: string := "Erreur lors de" + " l’appel au" + " serveur. Réessayez."

  /** The apology chosen by `lastUserWasArabic`. It is Arabic text exactly
      when the flag says the user wrote in Arabic. */
  function FallbackAnswer(arabic: bool): (r: string)
    ensures IsArabicText(r) == arabic
    ensures r != []
  {
    if arabic then
      ArabicHasArabic();
      ArabicFallback
    else
      FrenchHasNoArabic();
      FrenchFallback
  }

  lemma ArabicHasArabic()
    ensures IsArabicText(ArabicFallback)
  {
    var a, b, c := "وقع خطأ أثناء", " الاتصال بالخادم.", " حاول مرة أخرى.";
    assert IsArabicChar(a[0]);
    ArabicConcat(a, b);
    ArabicConcat(a + b, c);
  }

  lemma FrenchHasNoArabic()
    ensures !IsArabicText(FrenchFallback)
  {
    var a, b, c := "Erreur lors de", " l’appel au", " serveur. Réessayez.";
    assert forall i :: 0 <= i < |a| ==> !IsArabicChar(a[i]);
    assert forall i :: 0 <= i < |b| ==> !IsArabicChar(b[i]);
    assert forall i :: 0 <= i < |c| ==> !IsArabicChar(c[i]);
    ArabicConcat(a, b);
    ArabicConcat(a + b, c);
  }

  /** The `answer` variable after the try/catch. */
  function AnswerText(reply: Reply, arabic: bool): string {
    match reply
    case Answer(text) => text
    case Failed => FallbackAnswer(arabic)
  }

  /** `splitIntoSentences(normalizeForTtsBilingual(answer))`. */
  function UserQueryParts(reply: Reply, arabic: bool): seq<string> {
    SplitIntoSentences(Some(Normalized(Some(AnswerText(reply, arabic)))))
  }

  /** Normalizing and splitting keep the answer's language: some sentence
      is Arabic exactly when the answer is. */
  lemma PartsKeepLanguage(reply: Reply, arabic: bool)
    ensures SomeArabic(UserQueryParts(reply, arabic)) <==> IsArabicText(AnswerText(reply, arabic))
  {
    var answer := AnswerText(reply, arabic);
    var normalized := Normalized(Some(answer));
    NormalizeKeepsLanguage(answer);
    assert IsArabicText(normalized) == IsArabicText(answer);
    SentencesKeepLanguage(normalized);
  }

  /** When the backend fails, the apology's sentences are in the language
      the flag records: some sentence is Arabic exactly when the flag is
      set, and an Arabic apology is never empty. */
  lemma FallbackFollowsLanguage(arabic: bool)
    ensures SomeArabic(UserQueryParts(Failed, arabic)) <==> arabic
    ensures arabic ==> UserQueryParts(Failed, arabic) != []
  {
    PartsKeepLanguage(Failed, arabic);
  }

  /** The flag is a single global read after the `await`: when a second
      query is recognised before the first one's backend call fails, the
      first query's apology is in the second query's language. */
  lemma OverlapTakesLaterLanguage(first: string, second: string)
    requires IsArabicText(first) != IsArabicText(second)
    ensures SomeArabic(UserQueryParts(Failed, IsArabicText(second))) <==> !IsArabicText(first)
  {
    FallbackFollowsLanguage(IsArabicText(second));
  }

  // ---------------------------------------------------------------------
  // Speaking the sentences
  // ---------------------------------------------------------------------

  /** The part of handleUserQuery before the `await`: `if (isSpeaking)
      stopSpeaking()`. */
  function Begun(st: Playback): Playback {
    if st.isSpeaking then StopSent(st) else st
  }

  /** `speak(parts[i])` for each sentence in order, each with no ending
      silence, at time `now`. A speak that throws ends the handler, so the
      sentences after it are not spoken. */
  function Feed(st: Playback, sanitize: Cleaner, parts: seq<string>, now: int): Playback
    decreases |parts|
  {
    if parts == [] then st
    else
      var next := Spoke(st, sanitize, parts[0], 0, now);
      if SpeakThrows(st, sanitize, parts[0]) then next else Feed(next, sanitize, parts[1..], now)
  }

  /** Some speak of the series throws. */
  predicate FeedThrows(st: Playback, sanitize: Cleaner, parts: seq<string>, now: int)
    decreases |parts|
  {
    parts != [] &&
      (SpeakThrows(st, sanitize, parts[0]) || FeedThrows(Spoke(st, sanitize, parts[0], 0, now), sanitize, parts[1..], now))
  }

  /** The sentences that survive speak's cleaning, cleaned, in order: no
      entry is empty (CleanedNonEmpty). CleanedNone, CleanedAppend and CleanedOne give when
      there is none, the entries and their order. */
  function Cleaned(parts: seq<string>, sanitize: Cleaner): (r: seq<string>)
    ensures |r| <= |parts|
    decreases |parts|
  {
    if parts == [] then []
    else
      var c := sanitize(parts[0]);
      var rest := Cleaned(parts[1..], sanitize);
      (if c == [] then [] else [c]) + rest
  }

  /** Every surviving entry is a nonempty text. */
  lemma {:induction false} CleanedNonEmpty(parts: seq<string>, sanitize: Cleaner)
    ensures forall k :: 0 <= k < |Cleaned(parts, sanitize)| ==> Cleaned(parts, sanitize)[k] != []
    decreases |parts|
  {
    if parts != [] {
      CleanedNonEmpty(parts[1..], sanitize);
    }
  }

  /** Nothing survives exactly when every sentence cleans to nothing. */
  lemma {:induction false} CleanedNone(parts: seq<string>, sanitize: Cleaner)
    ensures Cleaned(parts, sanitize) == [] <==> forall i :: 0 <= i < |parts| ==> sanitize(parts[i]) == []
    decreases |parts|
  {
    if parts != [] {
      CleanedNone(parts[1..], sanitize);
      assert forall i :: 1 <= i < |parts| ==> parts[i] == parts[1..][i - 1];
    }
  }

  /** Cleaning a concatenation concatenates the cleanings: the survivors
      keep the order of the answer. */
  lemma {:induction false} CleanedAppend(a: seq<string>, b: seq<string>, sanitize: Cleaner)
    ensures Cleaned(a + b, sanitize) == Cleaned(a, sanitize) + Cleaned(b, sanitize)
    decreases |a|
  {
    if a == [] {
      assert a + b == b;
    } else {
      var h := if sanitize(a[0]) == [] then [] else [sanitize(a[0])];
      assert Cleaned(a + b, sanitize) == h + Cleaned(a[1..] + b, sanitize) by {
        assert (a + b)[0] == a[0];
        assert (a + b)[1..] == a[1..] + b;
      }
      CleanedAppend(a[1..], b, sanitize);
      assert Cleaned(a, sanitize) == h + Cleaned(a[1..], sanitize);
    }
  }

  /** A single sentence survives, cleaned, exactly when it cleans to
      something. */
  lemma CleanedOne(part: string, sanitize: Cleaner)
    ensures Cleaned([part], sanitize) == if sanitize(part) == [] then [] else [sanitize(part)]
  {
    assert [part][1..] == [];
  }

  /** While speaking, the whole answer is queued behind the current text:
      every sentence that cleans to something joins the end of the queue, in
      order, and nothing else changes. */
  lemma {:induction false} FeedWhileSpeaking(st: Playback, sanitize: Cleaner, parts: seq<string>, now: int)
    requires st.isSpeaking
    ensures Feed(st, sanitize, parts, now) == st.(queue := st.queue + Cleaned(parts, sanitize))
    ensures !FeedThrows(st, sanitize, parts, now)
    decreases |parts|
  {
    if parts == [] {
      assert st.queue + [] == st.queue;
    } else {
      var c := sanitize(parts[0]);
      var next := Spoke(st, sanitize, parts[0], 0, now);
      var head := if c == [] then [] else [c];
      assert next == st.(queue := st.queue + head);
      FeedWhileSpeaking(next, sanitize, parts[1..], now);
      AppendAssoc(st.queue, head, Cleaned(parts[1..], sanitize));
    }
  }

  /** From idle, the first sentence that cleans to something is sent at
      once, cleaned a second time by speakNext, and the later ones are
      queued behind it in order; an answer that cleans to nothing leaves the
      controller as it was. */
  lemma {:induction false} FeedFromIdle(st: Playback, sanitize: Cleaner, parts: seq<string>, now: int)
    requires Orderly(st) && !st.isSpeaking
    ensures !FeedThrows(st, sanitize, parts, now)
    ensures Cleaned(parts, sanitize) == [] ==> Feed(st, sanitize, parts, now) == st
    ensures Cleaned(parts, sanitize) != [] ==>
      && Orderly(Feed(st, sanitize, parts, now))
      && Feed(st, sanitize, parts, now).isSpeaking
      && Feed(st, sanitize, parts, now).queue == Cleaned(parts, sanitize)[1..]
      && Feed(st, sanitize, parts, now).ttsVoice == st.ttsVoice
      && Feed(st, sanitize, parts, now).spoken
         == st.spoken + [BuildRequest(sanitize(Cleaned(parts, sanitize)[0]), 0, st.ttsVoice)]
    decreases |parts|
  {
    if parts != [] {
      var c := sanitize(parts[0]);
      SpeakKeepsOrderly(st, sanitize, parts[0], 0, now);
      var next := Spoke(st, sanitize, parts[0], 0, now);
      var rest := Cleaned(parts[1..], sanitize);
      if c == [] {
        assert next == st && !SpeakThrows(st, sanitize, parts[0]);
        FeedFromIdle(st, sanitize, parts[1..], now);
        assert Feed(st, sanitize, parts, now) == Feed(st, sanitize, parts[1..], now);
        assert Cleaned(parts, sanitize) == rest;
      } else {
        assert !SpeakThrows(st, sanitize, parts[0]) && next.queue == [];
        FeedWhileSpeaking(next, sanitize, parts[1..], now);
        assert next.queue + rest == rest;
        assert Feed(st, sanitize, parts, now) == next.(queue := rest);
        assert Cleaned(parts, sanitize) == [c] + rest;
      }
    }
  }

  /** The answer is spoken in order. Started from idle, once each of its
      sentences has settled, every sentence that cleans to something has
      been sent, in the order of the answer, each cleaned twice and without
      an ending break, and the controller is idle again. */
  lemma AnswerSpokenInOrder(st: Playback, sanitize: Cleaner, parts: seq<string>, now: int, times: seq<int>)
    requires Orderly(st) && !st.isSpeaking
    requires times != [] && |times| == |Cleaned(parts, sanitize)|
    ensures Orderly(Feed(st, sanitize, parts, now)) && Feed(st, sanitize, parts, now).isSpeaking
    ensures |times| == |Feed(st, sanitize, parts, now).queue| + 1
    ensures SettleAll(Feed(st, sanitize, parts, now), sanitize, times).spoken
      == st.spoken + Requests(Cleaned(parts, sanitize), sanitize, st.ttsVoice)
    ensures !SettleAll(Feed(st, sanitize, parts, now), sanitize, times).isSpeaking
    ensures SettleAll(Feed(st, sanitize, parts, now), sanitize, times).inFlight == 0
  {
    FeedFromIdle(st, sanitize, parts, now);
    var f := Feed(st, sanitize, parts, now);
    var cs := Cleaned(parts, sanitize);
    DrainInOrder(f, sanitize, times);
    var head := BuildRequest(sanitize(cs[0]), 0, st.ttsVoice);
    assert Requests(cs, sanitize, st.ttsVoice) == [head] + Requests(cs[1..], sanitize, st.ttsVoice);
    AppendAssoc(st.spoken, [head], Requests(cs[1..], sanitize, st.ttsVoice));
  }

  /** When the promise of stopSpeakingAsync rejects (the cancel is refused,
      StopRefused), the flag stays raised, so the whole new answer is queued
      behind a text that is no longer wanted. */
  lemma AnswerWaitsAfterFailedStop(st: Playback, sanitize: Cleaner, parts: seq<string>, now: int)
    requires st.isSpeaking && st.hasSynthesizer
    ensures Feed(StopRefused(Begun(st)), sanitize, parts, now).queue == Cleaned(parts, sanitize)
    ensures Feed(StopRefused(Begun(st)), sanitize, parts, now).spoken == st.spoken
  {
    FeedWhileSpeaking(StopRefused(Begun(st)), sanitize, parts, now);
  }

  // ---------------------------------------------------------------------
  // The handler
  // ---------------------------------------------------------------------

  class QueryHandler {
    /** The speech controller the handler speaks through. */
    const speech: SpeechController
    var lastUserWasArabic: bool

    constructor (speech: SpeechController)
      ensures this.speech == speech && !lastUserWasArabic
    {
      this.speech := speech;
      lastUserWasArabic := false;
    }

    /** handleUserQuery(userQuery) up to the `await`. */
    method BeginUserQuery(userQuery: string)
      modifies this, speech
      ensures lastUserWasArabic == IsArabicText(userQuery)
      ensures speech.State() == Begun(old(speech.State()))
    {
      lastUserWasArabic := IsArabicText(userQuery);
      if speech.isSpeaking {
        speech.StopRequested();
      }
    }

    /** handleUserQuery after the `await`, given what the backend answered.
        The apology's language is read from the flag as it is now. `threw`
        tells that a speak threw and ended the handler. */
    method FinishUserQuery(reply: Reply, now: int) returns (threw: bool)
      modifies speech
      ensures speech.State() == Feed(old(speech.State()), speech.sanitize, UserQueryParts(reply, lastUserWasArabic), now)
      ensures threw == FeedThrows(old(speech.State()), speech.sanitize, UserQueryParts(reply, lastUserWasArabic), now)
    {
      var answer := "";
      match reply {
        case Answer(text) => answer := text;
        case Failed => answer := FallbackAnswer(lastUserWasArabic);
      }
      assert answer == AnswerText(reply, lastUserWasArabic);
      var ttsText := NormalizeForTtsBilingual(Some(answer));
      var parts := SplitIntoSentences(Some(ttsText));
      assert parts == UserQueryParts(reply, lastUserWasArabic);
      if |parts| == 0 {
        assert Feed(speech.State(), speech.sanitize, parts, now) == speech.State();
        return false;
      }
      threw := SpeakParts(parts, now);
    }

    /** The `speak(parts[i])` loop; `threw` tells that a speak threw, which
        ends the loop. */
    method SpeakParts(parts: seq<string>, now: int) returns (threw: bool)
      modifies speech
      ensures speech.State() == Feed(old(speech.State()), speech.sanitize, parts, now)
      ensures threw == FeedThrows(old(speech.State()), speech.sanitize, parts, now)
    {
      ghost var st0 := speech.State();
      var i := 0;
      while i < |parts|
        invariant 0 <= i <= |parts|
        invariant Feed(st0, speech.sanitize, parts, now) == Feed(speech.State(), speech.sanitize, parts[i..], now)
        invariant FeedThrows(st0, speech.sanitize, parts, now) == FeedThrows(speech.State(), speech.sanitize, parts[i..], now)
      {
        assert parts[i..][0] == parts[i] && parts[i..][1..] == parts[i + 1..];
        threw := speech.Speak(parts[i], 0, now);
        if threw {
          return;
        }
        i := i + 1;
      }
      assert parts[i..] == [];
      threw := false;
    }

    /** handleUserQuery when nothing else happens during the `await`: the
        apology's language is the query's own. */
    method HandleUserQuery(userQuery: string, reply: Reply, now: int) returns (threw: bool)
      modifies this, speech
      ensures lastUserWasArabic == IsArabicText(userQuery)
      ensures speech.State()
        == Feed(Begun(old(speech.State())), speech.sanitize, UserQueryParts(reply, IsArabicText(userQuery)), now)
      ensures threw
        == FeedThrows(Begun(old(speech.State())), speech.sanitize, UserQueryParts(reply, IsArabicText(userQuery)), now)
    {
      ghost var arabic := IsArabicText(userQuery);
      ghost var begun := Begun(speech.State());
      BeginUserQuery(userQuery);
      assert lastUserWasArabic == arabic && speech.State() == begun;
      threw := FinishUserQuery(reply, now);
    }
  }
}
