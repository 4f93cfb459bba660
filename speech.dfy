/** The speech queue: speak, speakNext, stopSpeaking and the stall watchdog,
    with the continuations of the synthesizer's promises as events. The
    controller speaks one text at a time and queues what arrives meanwhile.

    The state is a value (Playback) and every event a function on it; the
    class SpeechController holds the same state in fields and has one method
    per event, each proved to produce the value its function gives. The
    requests handed to the synthesizer, the requests still unsettled and the
    stop requests still unanswered are recorded in ghost fields.

    The event functions take the text cleaner as a parameter `sanitize`, and
    their properties are proved for every cleaner; the controller is built
    with sanitizeForSpeech (Clean), so they hold for it in particular. */
module Speech {
  import opened Wrappers
  import opened Chars
  import opened Html
  import opened Sanitize

  /** MAX_SPEAK_STALL_MS: the watchdog fires 120000 ms after it is armed. */
  const MaxSpeakStallMs: int := 120000

  const ArabicVoice: string := "ar-MA-MounaNeural"
  const DefaultFrenchVoice: string := "fr-FR-DeniseNeural"
  const ArabicLocale: string := "ar-MA"
  const FrenchLocale: string := "fr-FR"

  /** What one speakSsmlAsync call asks for: the text, the `xml:lang` and
      voice of the markup, the encoded body and the ending break, present only
      when one was asked for. */
  datatype Request = Request(text: string, xmlLang: string, voice: string, body: string, breakMs: Option<int>)

  /** `sanitizeForSpeech(text)` on a text that is present: the cleaner the
      controller is built with. */
  function Clean(text: string): string {
    SanitizeForSpeech(Some(text))
  }

  /** A text cleaner, applied by speak and again by speakNext. */
  type Cleaner = string -> string

  /** The markup speakNext builds around the cleaned `text`, with the French
      voice the voice selector holds (`ttsVoice`). */
  function BuildRequest(text: string, endingSilenceMs: int, ttsVoice: string): (r: Request)
    ensures r.text == text
    ensures IsArabicText(text) ==> r.xmlLang == ArabicLocale && r.voice == ArabicVoice
    ensures !IsArabicText(text) ==> r.xmlLang == FrenchLocale
    ensures !IsArabicText(text) && ttsVoice != [] ==> r.voice == ttsVoice
    ensures !IsArabicText(text) && ttsVoice == [] ==> r.voice == DefaultFrenchVoice
    ensures r.breakMs.Some? <==> endingSilenceMs > 0
    ensures r.breakMs.Some? ==> r.breakMs.value == endingSilenceMs
    ensures MarkupFree(r.body) && HtmlDecode(r.body) == text
  {
    var isArabic := IsArabicText(text);
    var frenchVoice := if ttsVoice == [] then DefaultFrenchVoice else ttsVoice;
    DecodeEncode(text);
    Request(
      text,
      if isArabic then ArabicLocale else FrenchLocale,
      if isArabic then ArabicVoice else frenchVoice,
      HtmlEncode(text),
      if endingSilenceMs > 0 then Some(endingSilenceMs) else None)
  }

  /** The controller's state.
      - isSpeaking, speakingText, queue: the globals of the same names
        (`spokenTextQueue` for the queue);
      - deadline: the pending watchdog timer, as the time it fires;
      - hasSynthesizer: whether `avatarSynthesizer` is set;
      - ttsVoice: the value of the French voice selector;
      - inFlight: speakSsmlAsync calls whose promise has not settled;
      - stopsPending: stopSpeakingAsync calls whose promise has not settled;
      - spoken: every request handed to speakSsmlAsync, in order. */
  datatype Playback = Playback(
    isSpeaking: bool,
    speakingText: string,
    queue: seq<string>,
    deadline: Option<int>,
    hasSynthesizer: bool,
    ttsVoice: string,
    inFlight: nat,
    stopsPending: nat,
    spoken: seq<Request>)

  /** The state when the page loads. */
  function InitialPlayback(ttsVoice: string): Playback {
    Playback(false, [], [], None, false, ttsVoice, 0, 0, [])
  }

  /** armSpeakingWatchdog at time `now`: any pending timer is replaced. */
  function Armed(st: Playback, now: int): Playback {
    st.(deadline := Some(now + MaxSpeakStallMs))
  }

  /** speakNext(rawText, endingSilenceMs) at time `now`: the text is cleaned
      (again), the flag, the watchdog and speakingText are set, and then the
      synthesizer is called; without a synthesizer that call throws, so
      nothing is sent. */
  function Started(st: Playback, sanitize: Cleaner, rawText: string, endingSilenceMs: int, now: int): Playback {
    var req := BuildRequest(sanitize(rawText), endingSilenceMs, st.ttsVoice);
    var s := Armed(st.(isSpeaking := true), now).(speakingText := req.text);
    if st.hasSynthesizer then s.(inFlight := s.inFlight + 1, spoken := s.spoken + [req]) else s
  }

  /** speak(text, endingSilenceMs): an empty cleaned text is dropped; while
      speaking, the cleaned text alone is queued; otherwise it is started. */
  function Spoke(st: Playback, sanitize: Cleaner, text: string, endingSilenceMs: int, now: int): Playback {
    var cleaned := sanitize(text);
    if cleaned == [] then st
    else if st.isSpeaking then st.(queue := st.queue + [cleaned])
    else Started(st, sanitize, cleaned, endingSilenceMs, now)
  }

  /** speak(text) ends by throwing: it starts a text with no synthesizer. */
  predicate SpeakThrows(st: Playback, sanitize: Cleaner, text: string) {
    sanitize(text) != [] && !st.isSpeaking && !st.hasSynthesizer
  }

  /** The `.then` and the `.catch` continuation of speakSsmlAsync, which do
      the same: clear the watchdog and speakingText, then start the head of
      the queue, or lower the flag when the queue is empty. */
  function Settled(st: Playback, sanitize: Cleaner, now: int): Playback
    requires st.inFlight > 0
  {
    var s := st.(deadline := None, speakingText := [], inFlight := st.inFlight - 1);
    if |s.queue| > 0 then Started(s.(queue := s.queue[1..]), sanitize, s.queue[0], 0, now)
    else s.(isSpeaking := false)
  }

  /** The watchdog timer firing. While speaking it lowers the flag, clears
      speakingText and speaks the head of the queue; the stalled request is
      not cancelled. */
  function Fired(st: Playback, sanitize: Cleaner, now: int): Playback
    requires st.deadline.Some? && now >= st.deadline.value
  {
    var s := st.(deadline := None);
    if !s.isSpeaking then s
    else
      var r := s.(isSpeaking := false, speakingText := []);
      if |r.queue| > 0 then Spoke(r.(queue := r.queue[1..]), sanitize, r.queue[0], 0, now) else r
  }

  /** stopSpeaking(): the queue is emptied; with a synthesizer, a cancel is
      sent. The flag is left as it is until the cancel settles. */
  function StopSent(st: Playback): Playback {
    var s := st.(queue := []);
    if s.hasSynthesizer then s.(stopsPending := s.stopsPending + 1) else s
  }

  /** The cancel succeeded: the flag is lowered. The watchdog is not cleared. */
  function StopDone(st: Playback): Playback
    requires st.stopsPending > 0
  {
    st.(stopsPending := st.stopsPending - 1, isSpeaking := false)
  }

  /** The cancel failed: only the error is logged. */
  function StopRefused(st: Playback): Playback
    requires st.stopsPending > 0
  {
    st.(stopsPending := st.stopsPending - 1)
  }

  // ---------------------------------------------------------------------
  // The orderly regime
  // ---------------------------------------------------------------------

  /** With a synthesizer, no cancel outstanding and no watchdog reset, the
      controller keeps these together: exactly one request is in flight
      while speaking and none otherwise, the watchdog is pending exactly
      while speaking, the queue is empty when idle, and speakingText is the
      text of the request in flight. */
  predicate Orderly(st: Playback) {
    && st.hasSynthesizer
    && st.stopsPending == 0
    && st.inFlight == (if st.isSpeaking then 1 else 0)
    && (st.deadline.Some? <==> st.isSpeaking)
    && (!st.isSpeaking ==> st.queue == [] && st.speakingText == [])
    && (st.isSpeaking ==> st.spoken != [] && st.speakingText == st.spoken[|st.spoken| - 1].text)
  }

  /** Once the synthesizer exists, the page's initial state is orderly. */
  lemma ConnectedStartIsOrderly(ttsVoice: string)
    ensures Orderly(InitialPlayback(ttsVoice).(hasSynthesizer := true))
    ensures !Orderly(InitialPlayback(ttsVoice))
  {
  }

  /** speak keeps the regime. A text that cleans to nothing changes nothing;
      while speaking, the cleaned text joins the end of the queue and nothing
      else changes; when idle, the text is cleaned a second time and sent at
      once with the ending silence asked for, and nothing is queued. */
  lemma SpeakKeepsOrderly(st: Playback, sanitize: Cleaner, text: string, ms: int, now: int)
    requires Orderly(st)
    ensures Orderly(Spoke(st, sanitize, text, ms, now))
    ensures !SpeakThrows(st, sanitize, text)
    ensures sanitize(text) == [] ==> Spoke(st, sanitize, text, ms, now) == st
    ensures sanitize(text) != [] && st.isSpeaking ==>
      Spoke(st, sanitize, text, ms, now) == st.(queue := st.queue + [sanitize(text)])
    ensures sanitize(text) != [] && !st.isSpeaking ==>
      && Spoke(st, sanitize, text, ms, now).spoken == st.spoken + [BuildRequest(sanitize(sanitize(text)), ms, st.ttsVoice)]
      && Spoke(st, sanitize, text, ms, now).isSpeaking
      && Spoke(st, sanitize, text, ms, now).queue == []
  {
  }

  /** A settled request keeps the regime: the head of the queue is cleaned
      again and sent, without an ending break, while the flag stays raised;
      with an empty queue the controller goes idle. */
  lemma SettleKeepsOrderly(st: Playback, sanitize: Cleaner, now: int)
    requires Orderly(st) && st.isSpeaking
    ensures Orderly(Settled(st, sanitize, now))
    ensures st.queue != [] ==>
      && Settled(st, sanitize, now).isSpeaking
      && Settled(st, sanitize, now).queue == st.queue[1..]
      && Settled(st, sanitize, now).spoken == st.spoken + [BuildRequest(sanitize(st.queue[0]), 0, st.ttsVoice)]
      && Settled(st, sanitize, now).spoken[|st.spoken|].breakMs.None?
    ensures st.queue == [] ==>
      && !Settled(st, sanitize, now).isSpeaking
      && Settled(st, sanitize, now).inFlight == 0
      && Settled(st, sanitize, now).spoken == st.spoken
  {
  }

  /** The requests that starting the queued `texts` one after the other
      sends: each text cleaned again, with no ending break. */
  function Requests(texts: seq<string>, sanitize: Cleaner, ttsVoice: string): (rs: seq<Request>)
    ensures |rs| == |texts|
    decreases |texts|
  {
    if texts == [] then []
    else [BuildRequest(sanitize(texts[0]), 0, ttsVoice)] + Requests(texts[1..], sanitize, ttsVoice)
  }

  /** Request `k` is built from text `k`. */
  lemma {:induction false} RequestsPointwise(texts: seq<string>, sanitize: Cleaner, ttsVoice: string)
    ensures forall k :: 0 <= k < |texts| ==>
      Requests(texts, sanitize, ttsVoice)[k] == BuildRequest(sanitize(texts[k]), 0, ttsVoice)
    decreases |texts|
  {
    if texts != [] {
      var tail := texts[1..];
      RequestsPointwise(tail, sanitize, ttsVoice);
      var rs := Requests(texts, sanitize, ttsVoice);
      assert rs == [BuildRequest(sanitize(texts[0]), 0, ttsVoice)] + Requests(tail, sanitize, ttsVoice);
      forall k | 0 <= k < |texts| ensures rs[k] == BuildRequest(sanitize(texts[k]), 0, ttsVoice) {
        if k > 0 { assert texts[k] == tail[k - 1]; }
      }
    }
  }

  lemma AppendAssoc<T>(a: seq<T>, b: seq<T>, c: seq<T>)
    ensures (a + b) + c == a + (b + c)
  {
  }

  /** Settles in a row, one per entry of `times`, each at that time. */
  function SettleAll(st: Playback, sanitize: Cleaner, times: seq<int>): Playback
    requires Orderly(st)
    requires |times| <= |st.queue| + 1 && (times != [] ==> st.isSpeaking)
    decreases |times|
  {
    if times == [] then st
    else
      SettleKeepsOrderly(st, sanitize, times[0]);
      SettleAll(Settled(st, sanitize, times[0]), sanitize, times[1..])
  }

  /** First in, first out. While speaking, each settle sends the next queued
      text, so the texts go to the synthesizer in the order they were
      queued, each without an ending break; once every queued text has been
      sent, one more settle makes the controller idle. */
  lemma {:induction false} DrainInOrder(st: Playback, sanitize: Cleaner, times: seq<int>)
    requires Orderly(st) && st.isSpeaking
    requires |times| <= |st.queue| + 1
    ensures Orderly(SettleAll(st, sanitize, times))
    ensures |times| <= |st.queue| ==>
      && SettleAll(st, sanitize, times).isSpeaking
      && SettleAll(st, sanitize, times).queue == st.queue[|times|..]
      && SettleAll(st, sanitize, times).spoken == st.spoken + Requests(st.queue[..|times|], sanitize, st.ttsVoice)
    ensures |times| == |st.queue| + 1 ==>
      && !SettleAll(st, sanitize, times).isSpeaking
      && SettleAll(st, sanitize, times).inFlight == 0
      && SettleAll(st, sanitize, times).spoken == st.spoken + Requests(st.queue, sanitize, st.ttsVoice)
    decreases |times|
  {
    if times == [] {
      assert st.queue[..0] == [] && st.queue[0..] == st.queue;
      assert Requests([], sanitize, st.ttsVoice) == [];
    } else {
      var q := st.queue;
      var v := st.ttsVoice;
      SettleKeepsOrderly(st, sanitize, times[0]);
      var next := Settled(st, sanitize, times[0]);
      var rest := times[1..];
      var after := SettleAll(next, sanitize, rest);
      assert SettleAll(st, sanitize, times) == after;
      if q != [] {
        DrainInOrder(next, sanitize, rest);
        var head := BuildRequest(sanitize(q[0]), 0, v);
        assert next.spoken == st.spoken + [head] && next.queue == q[1..] && next.ttsVoice == v;
        var used := if |times| <= |q| then q[..|times|] else q;
        assert used != [] && used[0] == q[0];
        assert used[1..] == if |times| <= |q| then q[1..][..|rest|] else q[1..];
        var tailReqs := Requests(used[1..], sanitize, v);
        assert Requests(used, sanitize, v) == [head] + tailReqs;
        assert after.spoken == next.spoken + tailReqs;
        AppendAssoc(st.spoken, [head], tailReqs);
        if |times| <= |q| {
          assert q[1..][|rest|..] == q[|times|..];
        }
      }
    }
  }

  /** An ending silence is kept only for a text sent at once: a text queued
      with `endingSilenceMs > 0` is later sent without a break. */
  lemma QueuedSilenceDropped(st: Playback, sanitize: Cleaner, text: string, ms: int, now: int, later: int)
    requires Orderly(st) && st.isSpeaking && st.queue == []
    requires sanitize(text) != [] && ms > 0
    ensures Settled(Spoke(st, sanitize, text, ms, now), sanitize, later).spoken
      == st.spoken + [BuildRequest(sanitize(sanitize(text)), 0, st.ttsVoice)]
    ensures Settled(Spoke(st, sanitize, text, ms, now), sanitize, later).spoken[|st.spoken|].breakMs.None?
  {
    var s := Spoke(st, sanitize, text, ms, now);
    assert s.queue == [sanitize(text)];
  }

  /** A text sent at once keeps its ending silence. */
  lemma ImmediateSilenceKept(st: Playback, sanitize: Cleaner, text: string, ms: int, now: int)
    requires Orderly(st) && !st.isSpeaking
    requires sanitize(text) != [] && ms > 0
    ensures Spoke(st, sanitize, text, ms, now).spoken[|st.spoken|].breakMs == Some(ms)
  {
  }

  // ---------------------------------------------------------------------
  // Leaving the orderly regime: the watchdog and stops
  // ---------------------------------------------------------------------

  /** A watchdog firing while speaking does not cancel the stalled request:
      when the queue holds a text that cleans to something, that text is sent
      while the stalled request is still in flight, so two are in flight. */
  lemma WatchdogOverlapsRequests(st: Playback, sanitize: Cleaner, now: int)
    requires Orderly(st) && st.isSpeaking && st.deadline.Some? && now >= st.deadline.value
    requires st.queue != [] && sanitize(st.queue[0]) != []
    ensures Fired(st, sanitize, now).inFlight == 2
    ensures Fired(st, sanitize, now).isSpeaking
    ensures Fired(st, sanitize, now).queue == st.queue[1..]
    ensures Fired(st, sanitize, now).spoken == st.spoken + [BuildRequest(sanitize(sanitize(st.queue[0])), 0, st.ttsVoice)]
  {
  }

  /** After such a reset with one text queued, the stalled request settling
      finds the queue empty: it lowers the flag, clears the watchdog and
      speakingText while the new request is still playing, so that text
      plays with no watchdog and the next text spoken is sent at once. */
  lemma StaleSettleClearsWatchdog(st: Playback, sanitize: Cleaner, now: int, later: int)
    requires Orderly(st) && st.isSpeaking && st.deadline.Some? && now >= st.deadline.value
    requires |st.queue| == 1 && sanitize(st.queue[0]) != []
    ensures !Settled(Fired(st, sanitize, now), sanitize, later).isSpeaking
    ensures Settled(Fired(st, sanitize, now), sanitize, later).deadline.None?
    ensures Settled(Fired(st, sanitize, now), sanitize, later).speakingText == []
    ensures Settled(Fired(st, sanitize, now), sanitize, later).inFlight == 1
  {
    var f := Fired(st, sanitize, now);
    assert f.inFlight == 2 && f.queue == [] && f.isSpeaking;
  }

  /** A watchdog firing while speaking with nothing queued lowers the flag
      although the stalled request is still in flight. */
  lemma WatchdogIdlesWithRequestInFlight(st: Playback, sanitize: Cleaner, now: int)
    requires Orderly(st) && st.isSpeaking && st.deadline.Some? && now >= st.deadline.value
    requires st.queue == []
    ensures !Fired(st, sanitize, now).isSpeaking && Fired(st, sanitize, now).inFlight == 1
  {
  }

  /** A watchdog left pending when the flag is already down does nothing but
      expire. */
  lemma LateWatchdogIsHarmless(st: Playback, sanitize: Cleaner, now: int)
    requires !st.isSpeaking && st.deadline.Some? && now >= st.deadline.value
    ensures Fired(st, sanitize, now) == st.(deadline := None)
  {
  }

  /** stopSpeaking empties the queue at once and leaves the flag as it is;
      a cancel is sent exactly when there is a synthesizer. */
  lemma StopEmptiesQueue(st: Playback)
    ensures StopSent(st).queue == []
    ensures StopSent(st).isSpeaking == st.isSpeaking
    ensures StopSent(st).stopsPending == st.stopsPending + (if st.hasSynthesizer then 1 else 0)
    ensures StopSent(st).spoken == st.spoken && StopSent(st).inFlight == st.inFlight
  {
  }

  /** Only a successful cancel lowers the flag; after a failed cancel the
      controller still counts as speaking, with nothing queued. */
  lemma StopOutcomes(st: Playback)
    requires st.hasSynthesizer
    ensures !StopDone(StopSent(st)).isSpeaking && StopDone(StopSent(st)).queue == []
    ensures StopRefused(StopSent(st)).isSpeaking == st.isSpeaking && StopRefused(StopSent(st)).queue == []
  {
  }

  /** A successful cancel leaves the cancelled request's promise to settle.
      A text spoken before it does is sent at once, so two requests are in
      flight; when the cancelled one then settles, the flag drops while the
      new text is still playing, and its watchdog is cleared. */
  lemma StopRace(st: Playback, sanitize: Cleaner, text: string, now: int, later: int)
    requires Orderly(st) && st.isSpeaking && sanitize(text) != []
    ensures Spoke(StopDone(StopSent(st)), sanitize, text, 0, now).inFlight == 2
    ensures Spoke(StopDone(StopSent(st)), sanitize, text, 0, now).isSpeaking
    ensures Spoke(StopDone(StopSent(st)), sanitize, text, 0, now).spoken
      == st.spoken + [BuildRequest(sanitize(sanitize(text)), 0, st.ttsVoice)]
    ensures !Settled(Spoke(StopDone(StopSent(st)), sanitize, text, 0, now), sanitize, later).isSpeaking
    ensures Settled(Spoke(StopDone(StopSent(st)), sanitize, text, 0, now), sanitize, later).inFlight == 1
    ensures Settled(Spoke(StopDone(StopSent(st)), sanitize, text, 0, now), sanitize, later).deadline.None?
  {
    var s := Spoke(StopDone(StopSent(st)), sanitize, text, 0, now);
    assert s.queue == [];
  }

  /** Without a synthesizer, speak raises the flag and arms the watchdog
      before the call that throws, so the controller counts as speaking with
      nothing in flight, and later texts are queued until the watchdog fires. */
  lemma SpeakingWithoutSynthesizer(st: Playback, sanitize: Cleaner, text: string, more: string, now: int)
    requires !st.hasSynthesizer && !st.isSpeaking && sanitize(text) != [] && sanitize(more) != []
    ensures SpeakThrows(st, sanitize, text)
    ensures Spoke(st, sanitize, text, 0, now).isSpeaking
    ensures Spoke(st, sanitize, text, 0, now).inFlight == st.inFlight
    ensures Spoke(st, sanitize, text, 0, now).spoken == st.spoken
    ensures Spoke(st, sanitize, text, 0, now).deadline == Some(now + MaxSpeakStallMs)
    ensures Spoke(Spoke(st, sanitize, text, 0, now), sanitize, more, 0, now).queue == st.queue + [sanitize(more)]
  {
  }

  // ---------------------------------------------------------------------
  // The controller
  // ---------------------------------------------------------------------

  class SpeechController {
    /** The cleaner speak and speakNext apply: sanitizeForSpeech. */
    const sanitize: Cleaner
    var isSpeaking: bool
    var speakingText: string
    var spokenTextQueue: seq<string>
    var watchdogDeadline: Option<int>
    var hasSynthesizer: bool
    var ttsVoice: string
    ghost var inFlight: nat
    ghost var stopsPending: nat
    ghost var spoken: seq<Request>

    ghost function State(): Playback
      reads this
    {
      Playback(isSpeaking, speakingText, spokenTextQueue, watchdogDeadline, hasSynthesizer, ttsVoice,
               inFlight, stopsPending, spoken)
    }

    /** The globals as the page loads them, with the voice selector's value. */
    constructor (ttsVoice: string)
      ensures sanitize == Clean
      ensures State() == InitialPlayback(ttsVoice)
    {
      sanitize := Clean;
      isSpeaking := false;
      speakingText := "";
      spokenTextQueue := [];
      watchdogDeadline := None;
      hasSynthesizer := false;
      this.ttsVoice := ttsVoice;
      inFlight := 0;
      stopsPending := 0;
      spoken := [];
    }

    /** `avatarSynthesizer = new SpeechSDK.AvatarSynthesizer(...)`. */
    method SynthesizerCreated()
      modifies this
      ensures State() == old(State()).(hasSynthesizer := true)
    {
      hasSynthesizer := true;
    }

    /** The user picks another French voice. */
    method VoiceSelected(voice: string)
      modifies this
      ensures State() == old(State()).(ttsVoice := voice)
    {
      ttsVoice := voice;
    }

    /** armSpeakingWatchdog(): clearTimeout, then a new timer. */
    method ArmSpeakingWatchdog(now: int)
      modifies this
      ensures State() == Armed(old(State()), now)
    {
      watchdogDeadline := Some(now + MaxSpeakStallMs);
    }

    /** speak(text, endingSilenceMs); `threw` tells that the call ended by
        throwing. */
    method Speak(text: string, endingSilenceMs: int, now: int) returns (threw: bool)
      modifies this
      ensures State() == Spoke(old(State()), sanitize, text, endingSilenceMs, now)
      ensures threw == SpeakThrows(old(State()), sanitize, text)
    {
      var cleaned := sanitize(text);
      if cleaned == [] {
        return false;
      }
      if isSpeaking {
        spokenTextQueue := spokenTextQueue + [cleaned];
        return false;
      }
      threw := SpeakNext(cleaned, endingSilenceMs, now);
    }

    /** speakNext(rawText, endingSilenceMs). */
    method SpeakNext(rawText: string, endingSilenceMs: int, now: int) returns (threw: bool)
      modifies this
      ensures State() == Started(old(State()), sanitize, rawText, endingSilenceMs, now)
      ensures threw == !old(hasSynthesizer)
    {
      var text := sanitize(rawText);
      var request := BuildRequest(text, endingSilenceMs, ttsVoice);
      isSpeaking := true;
      ArmSpeakingWatchdog(now);
      speakingText := text;
      if !hasSynthesizer {
        return true;
      }
      inFlight := inFlight + 1;
      spoken := spoken + [request];
      threw := false;
    }

    /** The `.then` continuation of speakSsmlAsync. */
    method SynthesisSucceeded(now: int)
      requires inFlight > 0
      modifies this
      ensures State() == Settled(old(State()), sanitize, now)
    {
      AfterSynthesis(now);
    }

    /** The `.catch` continuation of speakSsmlAsync; the error is only logged. */
    method SynthesisFailed(now: int)
      requires inFlight > 0
      modifies this
      ensures State() == Settled(old(State()), sanitize, now)
    {
      AfterSynthesis(now);
    }

    /** The body both continuations share. */
    method AfterSynthesis(now: int)
      requires inFlight > 0
      modifies this
      ensures State() == Settled(old(State()), sanitize, now)
    {
      inFlight := inFlight - 1;
      watchdogDeadline := None;
      speakingText := "";
      if |spokenTextQueue| > 0 {
        var next := spokenTextQueue[0];
        spokenTextQueue := spokenTextQueue[1..];
        var _ := SpeakNext(next, 0, now);
      } else {
        isSpeaking := false;
      }
    }

    /** The watchdog timer's callback. */
    method WatchdogFired(now: int)
      requires watchdogDeadline.Some? && now >= watchdogDeadline.value
      modifies this
      ensures State() == Fired(old(State()), sanitize, now)
    {
      watchdogDeadline := None;
      if isSpeaking {
        isSpeaking := false;
        speakingText := "";
        if |spokenTextQueue| > 0 {
          var next := spokenTextQueue[0];
          spokenTextQueue := spokenTextQueue[1..];
          var _ := Speak(next, 0, now);
        }
      }
    }

    /** stopSpeaking(). */
    method StopRequested()
      modifies this
      ensures State() == StopSent(old(State()))
    {
      spokenTextQueue := [];
      if !hasSynthesizer {
        return;
      }
      stopsPending := stopsPending + 1;
    }

    /** The `.then` continuation of stopSpeakingAsync. */
    method StopSucceeded()
      requires stopsPending > 0
      modifies this
      ensures State() == StopDone(old(State()))
    {
      stopsPending := stopsPending - 1;
      isSpeaking := false;
    }

    /** The `.catch` continuation of stopSpeakingAsync: the error is only
        logged. */
    method StopFailed()
      requires stopsPending > 0
      modifies this
      ensures State() == StopRefused(old(State()))
    {
      stopsPending := stopsPending - 1;
    }
  }
}
