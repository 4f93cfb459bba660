# Speech output of the avatar chat page

This project models the part of `chat.js` (avatar-chat-ui) that turns an assistant answer into speech.

- **Text helpers:** `isArabicText`, `detectLang`, `htmlEncode`, `sanitizeForSpeech` and `splitIntoSentences`.
- **Bilingual normalizer:** `TTS_MAP`, `escapeRegex`, `makeTokenRegex` and `normalizeForTtsBilingual`. It rewrites units, hours and abbreviations into words read in Arabic or in French.
- **Duplicate filter:** `shouldIgnoreQuery`, for queries recognised twice.
- **Speech queue:** `speak`, `speakNext`, `stopSpeaking` and the stall watchdog `armSpeakingWatchdog`, with `MAX_SPEAK_STALL_MS`.
- **Query handler:** `handleUserQuery`, which ties the pieces together.

Modules, one file each, in dependency order:

- `chars.dfy`:
  - `Wrappers` holds `Option`.
  - `Chars` holds the character classes of the regular expressions (`\s`, `\d`, `\w`, the Arabic block U+0600–U+06FF), `trim()`, `isArabicText` and `detectLang`.
- `html.dfy`:
  - `Html` holds `htmlEncode`.
  - `HtmlDecode` is a reference inverse. It serves to state that the encoding loses nothing (`DecodeEncode`) and that the body of a speech request decodes back to its text (`Speech.BuildRequest`).
- `sanitize.dfy`: `Sanitize` holds the six regular-expression passes of `sanitizeForSpeech`, one function each. The final `trim()` is `Chars.Trim`.
- `sentences.dfy`: `Sentences` holds `splitIntoSentences`. The JavaScript `split` with the look-behind pattern is modelled by an explicit scan.
- `normalizer.dfy`: `TtsNormalizer` holds the table and the token pattern.
  - A global `String.prototype.replace` of that pattern is given its meaning as a scan.
  - The table loop comes in two forms:
    - a `for` loop method, `NormalizeForTtsBilingual`;
    - a function it is proved equal to, `Normalized`.
  - The sort (`SortByLength`) and the two digit-spacing rewrites (`SpaceUnits`, `SpaceHours`) are single functions that both forms use.
  - `SpaceUnits` takes the list of unit alternatives as a parameter, and its lemmas hold for any list. `Spaced` and the method pass the source's list, `Units`.
  - `EscapeRegex` and `MakeTokenRegex` build the pattern text and describe what it matches. The pass itself (`ReplaceFrom`) does not read that text. It implements the pattern's meaning directly: the token between two boundary positions, with the boundary character before it kept.
- `dedup.dfy`: `Dedup` holds `shouldIgnoreQuery`. It is a pure `Filter` plus a class `QueryFilter` that holds the two globals.
- `speech.dfy`: `Speech` models the speech queue.
  - **Pure model:** the state of the globals is a value, `Playback`, and every event is a function on it:
    - a `speak` call;
    - a synthesizer promise settling;
    - the watchdog firing;
    - a stop being sent, or answered.
  - **Stateful model:** the class `SpeechController` keeps the same state in fields, with one method per event. Each method is proved to produce what its function gives.
  - **Ghost fields:** the requests handed to the synthesizer, the ones still unsettled and the cancels still unanswered.
- `assistant.dfy`: `Assistant` holds `handleUserQuery`.
  - The function is split at its `await` into `BeginUserQuery` and `FinishUserQuery`.
  - The backend's answer, or its failure, is the parameter `Reply`.

## Where the comments, the intent and the code differ

The model follows the code in each case:

- **Watchdog delay.** The watchdog's log message speaks of a stall of more than 12 s. The delay is `MAX_SPEAK_STALL_MS = 120000` ms, and the model uses 120000.
- **Queue contents.** The queue holds only the cleaned text. A sentence queued with an ending silence loses that silence (`Speech.QueuedSilenceDropped`).
- **More than one request in flight.** The flag `isSpeaking` and the queue are meant to keep one request at the synthesizer at a time. That rule holds only in the orderly regime (`Speech.Orderly`), which speaks and settles keep (`SpeakKeepsOrderly`, `SettleKeepsOrderly`). The watchdog and a stop break it:
  - a watchdog firing with a queue starts the next text beside the stalled request (`Speech.WatchdogOverlapsRequests`);
  - a speak after a successful cancel starts a second request beside the cancelled one (`Speech.StopRace`).
- **The `24h` row.** The hour rewrite runs before the table, so `24h` has already become `24 H` and the row `24h` → `vingt-quatre heures` does not match it (`TtsNormalizer.DayRowShadowed`). The row is read only where a word character such as `_` follows, because that keeps the hour rewrite from firing (`TtsNormalizer.DayRowAfterUnderscore`).
- **Failed stop.** `stopSpeaking` empties the queue at once. It lowers `isSpeaking` only when the cancel succeeds. After a failed cancel the flag stays raised, and the next answer is queued behind a text that was meant to be stopped (`Assistant.AnswerWaitsAfterFailedStop`).

## Model

| member | source | states |
|---|---|---|
| Chars.IsArabicText | chat.js:53-55 | true exactly when some character lies in U+0600–U+06FF |
| Chars.DetectLang | chat.js:122-124 | `Ar` exactly when some character lies in the Arabic block, otherwise `Fr` |
| Chars.ArabicConcat | chat.js:53-55 | a concatenation holds an Arabic letter exactly when one of its parts does |
| Chars.OrEmpty | chat.js:70 | `raw \|\| ""`: the text when present, the empty string otherwise |
| Chars.TrimStart | chat.js:77 | the result is a suffix of the input; what it drops is whitespace; it does not start with whitespace |
| Chars.TrimEnd | chat.js:77 | the result is a prefix of the input; what it drops is whitespace; it does not end with whitespace |
| Chars.Trim | chat.js:77 | `trim()`: the result neither starts nor ends with whitespace, and it is the input with whitespace cut from its two ends and nothing else changed |
| Chars.TrimKeeps | chat.js:77 | trimming introduces no character other than a space, and keeps text that has no double whitespace free of it |
| Chars.TrimKeepsVisible | chat.js:77 | trimming keeps every non-whitespace character, in order |
| Chars.TrimmedUnchanged | chat.js:77 | trimming text that is already trimmed changes nothing |
| Chars.Words | chat.js:75-77 | the words of a text, its maximal runs of non-whitespace characters in order; a text that starts with a non-whitespace character has at least one |
| Chars.WordsAreRuns | chat.js:75-77 | every word is non-empty and holds no whitespace |
| Chars.WordsCat | chat.js:75-77 | when the second text does not start a word, the words of a concatenation are the words of the first text followed by those of the second |
| Chars.WordsOfRun | chat.js:75-77 | a non-empty run without whitespace is one word |
| Chars.WordsOfTwo | chat.js:75-77 | two such runs joined by one space are two words: a single space separates words |
| Chars.WordsCons | chat.js:75-77 | putting the same character before two texts with the same words keeps their words equal |
| Chars.WordsSpacePrefix | chat.js:75-77 | a leading run of whitespace does not change the words |
| Chars.WordsSpaceSuffix | chat.js:75-77 | a trailing run of whitespace does not change the words |
| Chars.TrimKeepsWords | chat.js:77 | trimming keeps the words |
| Html.Entity | chat.js:58-65 | the six escaped characters become an entity that starts with `&` and ends with `;`; any other character stays as it is |
| Html.HtmlEncode | chat.js:57-67 | the result holds no `<`, `>`, `"`, `'` or `/` and is never shorter than the input |
| Html.EncodeAppend | chat.js:66 | the global replace works character by character: encoding a concatenation concatenates the encodings |
| Html.EncodeChar | chat.js:66 | a single character is encoded as its table entry |
| Html.DecodeEncode | chat.js:57-67 | decoding the encoding gives the input back, so the encoder is injective and loses nothing |
| Sanitize.RemoveDoubleStars | chat.js:71 | only asterisks are deleted: the text without its asterisks is the same, in order, and no character other than a space is introduced |
| Sanitize.RemoveStars | chat.js:72 | no asterisk is left, and every other character is kept, in order |
| Sanitize.HashRun | chat.js:73 | `#{1,6}`: the length of the run of at most six `#` at the start, which stops at a non-`#` |
| Sanitize.StripHeadings | chat.js:73 | no `#` is left; every character that is neither `#` nor whitespace is kept, in order; no character other than a space is introduced; where each match is, HeadingsCopies and HeadingRemoved state |
| Sanitize.HashRunOf | chat.js:73 | a run of `#` is the whole `#{1,6}` part of a match when it has exactly six, or fewer and no `#` follows it |
| Sanitize.HeadingsCopies | chat.js:73 | the text before the first `#`, whitespace included, is copied unchanged |
| Sanitize.HeadingRemoved | chat.js:73 | one match of `#{1,6}\s*`, a run of one to six `#` with all the whitespace after it, is removed and the rest is scanned on |
| Sanitize.HeadingStep | chat.js:73 | one heading match removes only `#` and whitespace |
| Sanitize.BulletMatch | chat.js:74 | a bullet, after leading whitespace, is found exactly when the first non-space character is `-` or `•` |
| Sanitize.StripBullets | chat.js:74 | keeps, in order, every character that is neither a bullet nor whitespace, and introduces no character other than a space; where the bullets go is stated by `StripBulletsOpening`, `BulletLinesAtLine`, `BulletLineRemoved` and `NoBulletUnchanged` |
| Sanitize.BulletStep | chat.js:74 | one bullet match removes only whitespace and one bullet |
| Sanitize.BulletLines | chat.js:74 | the per-line part of the bullet pass keeps, in order, every character that is neither a bullet nor whitespace, and introduces no character other than a space; where the bullets go is stated by `BulletLinesAtLine` and `BulletLineRemoved` |
| Sanitize.DropLineFeeds | chat.js:75 | drops exactly the leading run of line feeds: the result is a suffix, every character dropped is a line feed, and the result does not start with one |
| Sanitize.DropLineFeedsKeepsVisible | chat.js:75 | dropping the line feeds keeps every non-whitespace character, in order |
| Sanitize.CollapseNewlines | chat.js:75 | no line feed is left, only spaces are added, and every non-whitespace character is kept, in order; that each line break run becomes one space is stated by `LineBreakCollapsed` and `CrLineBreakCollapsed` |
| Sanitize.CollapseSpaces | chat.js:76 | no two adjacent whitespace characters are left; only spaces are added; every non-whitespace character is kept, in order; the first character stays whitespace exactly when it was; that the words survive is `CollapseSpacesKeepsWords` |
| Sanitize.SanitizeForSpeech | chat.js:69-78 | absent or empty input gives `""`; the result holds no `*`, `#` or line feed and no double whitespace; it is trimmed; it adds no character other than a space; every character that is neither whitespace nor one of `*`, `#`, `-`, `•` is kept, in order; that plain text keeps its words is `PlainTextPassesThrough` |
| Sanitize.StarsKeepVisible | chat.js:71-72 | the asterisk passes keep every character that is neither whitespace nor a marker, in order |
| Sanitize.HeadingsKeepVisible | chat.js:73 | the heading pass keeps every character that is neither whitespace nor a marker, in order |
| Sanitize.BulletsKeepVisible | chat.js:74 | the bullet pass keeps every character that is neither whitespace nor a marker, in order |
| Sanitize.SpacingKeepsVisible | chat.js:75-77 | the line-break pass, the space pass and the trim keep every character that is neither whitespace nor a marker, in order |
| Sanitize.StarPassesRemoveEveryStar | chat.js:71-72 | the two asterisk passes together do exactly what the single-star pass does alone |
| Sanitize.PlainTextPassesThrough | chat.js:69-78 | text without `*` or `#` in which no bullet opens the text or a line is only line-collapsed, space-collapsed and trimmed (only space-collapsed and trimmed without a line feed), and its words come out unchanged, each still separated from the next |
| Sanitize.NoStarUnchanged | chat.js:71-72 | the asterisk passes leave text without asterisks unchanged |
| Sanitize.NoHashUnchanged | chat.js:73 | the heading pass leaves text without `#` unchanged |
| Sanitize.NoBulletUnchanged | chat.js:74 | the bullet pass leaves unchanged a text in which no bullet opens the text or a line; a `-` inside a line stays |
| Sanitize.NoBulletLinesUnchanged | chat.js:74 | the scan past the start of the text changes nothing when no line feed is followed by a bullet match |
| Sanitize.BulletPrefix | chat.js:74 | `\s*[-•]\s*` matches exactly the leading whitespace, one bullet and the whitespace after it, and the match ends where the rest of the line begins |
| Sanitize.StripBulletsOpening | chat.js:74 | a bullet match that opens the text is removed, and the scan goes on after it |
| Sanitize.BulletLinesCopies | chat.js:74 | up to the first line feed the scan copies the text |
| Sanitize.BulletLinesAtLine | chat.js:74 | at the first line feed the line feed is kept and a bullet match opening the next line is removed; a line that opens without one is scanned on unchanged |
| Sanitize.BulletLinesAtBreak | chat.js:74 | the step of the scan at a line feed: the line feed stays and the bullet match after it, if any, goes |
| Sanitize.BulletLineRemoved | chat.js:74 | a bullet match opening the line after the first line feed is removed and the line feed kept |
| Sanitize.BulletRest | chat.js:74 | what follows a bullet match is the trimmed rest after the bullet |
| Sanitize.CollapseSpacesKeepsWords | chat.js:76 | collapsing whitespace runs keeps the words, and whether the text starts with one |
| Sanitize.SpaceRunCollapsed | chat.js:76 | a run of two or more whitespace characters becomes exactly one space |
| Sanitize.SpaceCopies | chat.js:76 | up to the first whitespace character the text is copied |
| Sanitize.CollapseSpacesIdle | chat.js:76 | text without two adjacent whitespace characters is left unchanged, so a single space stays |
| Sanitize.DropLineFeedsKeepsWords | chat.js:75 | dropping leading line feeds keeps the words |
| Sanitize.CollapseNewlinesKeepsWords | chat.js:75 | collapsing line breaks keeps the words, and whether the text starts with one |
| Sanitize.NewlineCopies | chat.js:75 | up to the first line break the text is copied |
| Sanitize.LineBreakCollapsed | chat.js:75 | the first line feed, with the line feeds that follow it, becomes one space |
| Sanitize.CrLineBreakCollapsed | chat.js:75 | a carriage return just before the first line feed goes into the same single space; an earlier one stays |
| Sanitize.NoLineFeedUnchanged | chat.js:75 | the line-break pass leaves a single line unchanged |
| Sentences.SkipSpaces | chat.js:83 | the greedy `\s+`: the end of the whitespace run, which stops at a non-space |
| Sentences.SplitFrom | chat.js:83 | `split` always yields at least one piece |
| Sentences.TrimAndDropEmpty | chat.js:83 | every piece kept is non-empty and trimmed, and none is added |
| Sentences.SplitIntoSentences | chat.js:80-84 | absent or whitespace-only text gives no sentence; every sentence is non-empty and trimmed |
| Sentences.AllSpaceTrimsToEmpty | chat.js:81-82 | whitespace-only text trims to empty, which is the early return |
| Sentences.SplitFromPieces | chat.js:83 | the pieces of trimmed text are non-empty and trimmed; each is split only at its end; every piece but the last ends with `.`, `!`, `?` or `؟` |
| Sentences.SplitFromRebuilds | chat.js:83 | the pieces, joined back with their separators, give the scanned text |
| Sentences.TrimmedUnchangedAll | chat.js:83 | `.map(trim).filter(Boolean)` changes nothing on pieces already trimmed and non-empty |
| Sentences.SentencesRebuildText | chat.js:80-84 | no sentences exactly when the trimmed text is empty; every sentence but the last ends with a sentence mark; none contains a split point; rejoined with whitespace separators they give the trimmed text |
| Sentences.TrimKeepsArabic | chat.js:81 | trimming keeps the language: it removes no Arabic letter |
| Sentences.TrimStartKeepsArabic | chat.js:81 | removing leading whitespace keeps the language |
| Sentences.TrimEndKeepsArabic | chat.js:81 | removing trailing whitespace keeps the language |
| Sentences.InterleaveArabic | chat.js:83 | text rebuilt from pieces and whitespace separators holds an Arabic letter exactly when some piece does |
| Sentences.SentencesKeepLanguage | chat.js:80-84 | some sentence is Arabic exactly when the text is |
| TtsNormalizer.EscapeRegex | chat.js:187-189 | the result is a pattern of literal atoms only, and the text it matches is exactly the input |
| TtsNormalizer.MakeTokenRegex | chat.js:191-194 | the pattern is the fixed boundary prefix, the escaped token and the fixed look-ahead suffix; the group between them matches exactly the token |
| TtsNormalizer.ReplaceFromDrawsOn | chat.js:209-210 | a pass writes only characters of the text and of the replacement |
| TtsNormalizer.ReplaceFromKeeps | chat.js:209-210 | a pass keeps every character that is not one of the token's |
| TtsNormalizer.NoOccurrenceCopies | chat.js:193 | with no delimited occurrence of the token, the scan copies the text |
| TtsNormalizer.LeftmostReplaced | chat.js:193 | the scan copies the text up to the first delimited occurrence, keeps the boundary character (`$1`), writes the replacement and goes on after the token |
| TtsNormalizer.ReplaceTokenUnmatched | chat.js:209-210 | a pass whose token does not occur between boundaries leaves the text unchanged |
| TtsNormalizer.ReplaceTokenLeftmost | chat.js:209-210 | a pass whose token occurs keeps everything before its leftmost delimited occurrence and writes the replacement in its place |
| TtsNormalizer.NoOccurrenceFrom | chat.js:193 | where the token cannot match from a position on, the scan copies the rest of the text |
| TtsNormalizer.OnlyOccurrence | chat.js:209-210 | a token that occurs between boundaries at one place only is replaced there, and the text around it is kept |
| TtsNormalizer.TokenReplacedOnce | chat.js:209-210 | a token standing between boundaries, whose first character occurs nowhere else, is replaced and the text on both sides is kept |
| TtsNormalizer.FirstCharAbsent | chat.js:193 | a token whose first character is absent does not occur |
| TtsNormalizer.Leftmost | chat.js:193 | the leftmost index where the token occurs between the pattern's boundaries |
| TtsNormalizer.FirstUnit | chat.js:201 | the alternative found, in pattern order, is a unit that matches at the index and is closed by `\b` |
| TtsNormalizer.FirstUnitNone | chat.js:201 | when none is found, no unit matches there |
| TtsNormalizer.FirstUnitIn | chat.js:201 | the alternative found is one of the listed units |
| TtsNormalizer.DigitUnitMeans | chat.js:201 | a digit counts as followed by a unit exactly when some listed unit matches right after it and is closed by `\b` |
| TtsNormalizer.SpaceUnits | chat.js:201 | the unit rewrite never shortens the text; what it writes is stated by `SpaceUnitsLeftmost` and `SpaceUnitsChangesAtUnits` |
| TtsNormalizer.SpaceUnitsChangesAtUnits | chat.js:201 | the text stays as it is exactly when no digit is followed by a unit and `\b`; otherwise it grows |
| TtsNormalizer.SpaceUnitsDrawsOn | chat.js:201 | the unit rewrite adds no character other than a space |
| TtsNormalizer.SpaceUnitsKeepsArabic | chat.js:201 | the unit rewrite keeps the language |
| TtsNormalizer.SpaceUnitsCopies | chat.js:201 | before the first digit followed by a unit the text is copied unchanged |
| TtsNormalizer.SpaceUnitsLeftmost | chat.js:201 | the text is copied up to the first digit followed by a unit; there the digit, one space and the first matching unit are written, and the rewrite goes on after the unit |
| TtsNormalizer.SpaceUnitsExample | chat.js:201 | `5Go` becomes `5 Go` |
| TtsNormalizer.NoUnitsIn | chat.js:201 | text made only of digits, `h` and `_` is left unchanged by the unit rewrite |
| TtsNormalizer.SpaceHours | chat.js:202 | the hour rewrite never shortens the text; what it writes is stated by `SpaceHoursLeftmost` and `SpaceHoursChangesAtHours` |
| TtsNormalizer.SpaceHoursChangesAtHours | chat.js:202 | the text stays as it is exactly when no digit is followed by `h`/`H` and `\b`; otherwise it grows |
| TtsNormalizer.SpaceHoursChars | chat.js:202 | the hour rewrite adds only spaces and `H`, and keeps every character other than a lower-case `h` |
| TtsNormalizer.SpaceHoursKeepsArabic | chat.js:202 | the hour rewrite keeps the language |
| TtsNormalizer.SpaceHoursLeftmost | chat.js:202 | the text is copied up to the first digit followed by `h`/`H` and `\b`; there the digit, a space and `H` are written, and the rewrite goes on after the letter |
| TtsNormalizer.SpaceHoursExample | chat.js:202 | `3h` becomes `3 H` |
| TtsNormalizer.Insert | chat.js:204 | inserting a row keeps the rows sorted by descending token length and adds exactly that row |
| TtsNormalizer.SortByLength | chat.js:204 | the table sorted by descending token length, with its size kept |
| TtsNormalizer.InsertPermutes | chat.js:204 | insertion adds exactly one copy of the row (multiset) |
| TtsNormalizer.SortPermutes | chat.js:204 | the sort is a permutation of the table |
| TtsNormalizer.SortedRowsFromTable | chat.js:204 | every sorted row is a row of the table |
| TtsNormalizer.InsertWithLength | chat.js:204 | insertion places a row after the rows of equal token length |
| TtsNormalizer.SortIsStable | chat.js:204 | rows of equal token length keep their table order, as `Array.prototype.sort` guarantees |
| TtsNormalizer.PassOrder | chat.js:204 | the order of the loop's passes is sorted by descending token length and covers the whole table |
| TtsNormalizer.DhPeriodsBeforeDh | chat.js:204 | `DH/semaine` is rewritten before `DH` |
| TtsNormalizer.LongerTokensFirst | chat.js:204 | in the loop's order, a row with a longer token always comes before a row with a shorter one |
| TtsNormalizer.TwoPasses | chat.js:206-211 | two rows in a row: the second pass reads the output of the first |
| TtsNormalizer.DhPerWeekSpoken | chat.js:204-211 | in the loop's order, `20 DH/semaine` is read `20 dirham par semaine` and the `DH` row then finds nothing |
| TtsNormalizer.DhFirstSplitsRate | chat.js:204-211 | in the other order, `DH` would take the first letters of the rate: `20 dirham/semaine` |
| TtsNormalizer.DhPerSmsSpoken | chat.js:204-211 | `DH/SMS` is read `dirham par SMS`, and the later `SMS` row spells it `S M S` |
| TtsNormalizer.DayRowShadowed | chat.js:200-202 | `24h` becomes `24 H` before the table runs, so the `24h` row no longer occurs |
| TtsNormalizer.DayRowAfterUnderscore | chat.js:200-210 | in `24h_` neither digit rewrite fires, and the `24h` row reads it `vingt-quatre heures_` |
| TtsNormalizer.Normalized | chat.js:196-197 | absent or empty text gives `""` |
| TtsNormalizer.NormalizeForTtsBilingual | chat.js:196-213 | the loop's output equals `Normalized`: the unit rewrite, then the hour rewrite, then one pass per sorted row, each reading the column of the input's language and skipping empty columns |
| TtsNormalizer.PassKeepsLanguage | chat.js:206-211 | a pass that reads the column of the text's own language keeps the language |
| TtsNormalizer.RulesKeepLanguage | chat.js:206-211 | all the passes together keep the language |
| TtsNormalizer.SpacedKeepsLanguage | chat.js:200-202 | the two digit rewrites keep the language |
| TtsNormalizer.NormalizeKeepsLanguage | chat.js:196-213 | the normalized text is detected in the same language as the input |
| TtsNormalizer.RulesPassThrough | chat.js:206-211 | passes whose tokens do not occur between boundaries leave the text unchanged |
| TtsNormalizer.NormalizePassThrough | chat.js:196-213 | text with no digit followed by a unit or hour letter, and no table token between boundaries, is returned unchanged |
| TtsNormalizer.VipIsNotIp | chat.js:193 | `IP` does not occur delimited inside `VIP`, because the letter before it is not a boundary |
| Dedup.Filter | chat.js:110-117 | a query is ignored exactly when it is empty, or equal to the last accepted one less than 1500 ms after it; ignoring keeps the globals; accepting stores the query and the time |
| Dedup.FirstQueryAccepted | chat.js:107-117 | the first non-empty query after load is accepted whatever the clock says |
| Dedup.OtherQueryAccepted | chat.js:113 | a non-empty query different from the last is accepted |
| Dedup.RepeatsMeasureFromAcceptance | chat.js:113-115 | repeats within 1500 ms of the acceptance are all ignored without refreshing the window; the first repeat at 1500 ms or later is accepted |
| Dedup.RepeatBeforeAcceptanceIgnored | chat.js:113 | a repeat whose clock reads no later than the acceptance is ignored |
| Dedup.QueryFilter.constructor | chat.js:107-108 | both globals start as `""` and `0` |
| Dedup.QueryFilter.ShouldIgnoreQuery | chat.js:110-117 | the verdict and the new globals are those of `Filter` |
| Dedup.RepeatedQuery | chat.js:110-117 | a query accepted, its repeat after 1000 ms ignored, and the next repeat 2000 ms after the acceptance accepted |
| Speech.BuildRequest | chat.js:466-496 | `xml:lang` and the voice follow the text's language, the French voice falling back to `fr-FR-DeniseNeural`; a break is present exactly when the silence is positive; the body is markup-free and decodes back to the text |
| Speech.ConnectedStartIsOrderly | chat.js:23-27 | the initial globals are orderly once a synthesizer exists, and not before |
| Speech.SpeakKeepsOrderly | chat.js:455-507 | in the orderly regime a speak never throws. An empty cleaned text changes nothing. While speaking, the cleaned text joins the queue. Otherwise one request is sent, for the text cleaned twice. The regime is kept |
| Speech.SettleKeepsOrderly | chat.js:508-528 | a settled request starts the head of the queue (cleaned again, with no ending break) or lowers the flag when the queue is empty; the regime is kept |
| Speech.Requests | chat.js:511-512 | one request per queued text |
| Speech.RequestsPointwise | chat.js:511-512 | the k-th request is the one built for the k-th text |
| Speech.DrainInOrder | chat.js:508-528 | settling requests one by one sends the queued texts in queue order, and the last settle leaves the controller idle with nothing in flight |
| Speech.QueuedSilenceDropped | chat.js:459-461 | a text queued with an ending silence is later sent without a break |
| Speech.ImmediateSilenceKept | chat.js:485-496 | a text started at once keeps its ending break |
| Speech.WatchdogOverlapsRequests | chat.js:91-99 | a watchdog firing with a queue sends the next text while the stalled request is still in flight, leaving two in flight |
| Speech.StaleSettleClearsWatchdog | chat.js:508-516 | the stalled request settling afterwards clears the new text's watchdog and lowers the flag while a request is still in flight |
| Speech.WatchdogIdlesWithRequestInFlight | chat.js:92-95 | a watchdog firing with an empty queue lowers the flag while the request is still in flight |
| Speech.LateWatchdogIsHarmless | chat.js:92 | a watchdog firing when not speaking only disarms itself |
| Speech.StopEmptiesQueue | chat.js:531-535 | `stopSpeaking` empties the queue, leaves the flag and the requests alone, and sends a cancel only when a synthesizer exists |
| Speech.StopOutcomes | chat.js:535-540 | a successful cancel lowers the flag; a failed one leaves it as it was |
| Speech.StopRace | chat.js:535-539 | a speak after a successful cancel starts a second request beside the cancelled one; when the cancelled one settles, the flag drops with the new request in flight |
| Speech.SpeakingWithoutSynthesizer | chat.js:502-507 | without a synthesizer, speak throws after raising the flag and arming the watchdog and sends nothing; later speaks are only queued |
| Speech.SpeechController.constructor | chat.js:23-27 | the controller starts in the initial state with `sanitizeForSpeech` as its cleaner |
| Speech.SpeechController.SynthesizerCreated | chat.js:303 | only `avatarSynthesizer` becomes set |
| Speech.SpeechController.VoiceSelected | chat.js:471 | only the French voice setting changes |
| Speech.SpeechController.ArmSpeakingWatchdog | chat.js:89-102 | the watchdog is re-armed to fire `MAX_SPEAK_STALL_MS` later |
| Speech.SpeechController.Speak | chat.js:455-464 | the new state is `Spoke` of the old one; it throws exactly when it starts a text without a synthesizer |
| Speech.SpeechController.SpeakNext | chat.js:466-507 | the new state is `Started` of the old one; it throws exactly when there is no synthesizer |
| Speech.SpeechController.SynthesisSucceeded | chat.js:508-517 | the new state is `Settled` of the old one |
| Speech.SpeechController.SynthesisFailed | chat.js:518-528 | the new state is `Settled` of the old one, the same as on success |
| Speech.SpeechController.AfterSynthesis | chat.js:509-516 | the continuation shared by success and failure yields `Settled` of the old state |
| Speech.SpeechController.WatchdogFired | chat.js:91-100 | the new state is `Fired` of the old one |
| Speech.SpeechController.StopRequested | chat.js:531-535 | the new state is `StopSent` of the old one |
| Speech.SpeechController.StopSucceeded | chat.js:536-539 | the new state is `StopDone` of the old one |
| Speech.SpeechController.StopFailed | chat.js:540 | the new state is `StopRefused` of the old one |
| Assistant.FallbackAnswer | chat.js:561-566 | the apology is Arabic exactly when the flag says the user wrote Arabic, and it is never empty |
| Assistant.ArabicHasArabic | chat.js:564 | the Arabic apology holds an Arabic letter |
| Assistant.FrenchHasNoArabic | chat.js:565 | the French apology holds none |
| Assistant.PartsKeepLanguage | chat.js:570-573 | some sentence of the normalized answer is Arabic exactly when the answer is |
| Assistant.FallbackFollowsLanguage | chat.js:561-573 | after a backend failure, some spoken sentence is Arabic exactly when the flag is set; an Arabic apology always yields a sentence |
| Assistant.OverlapTakesLaterLanguage | chat.js:547-566 | when a second query in the other language arrives during the `await`, the first query's apology is in the second query's language |
| Assistant.Cleaned | chat.js:456-457 | the texts that survive speak's cleaning are no more than the sentences; their content is stated by `CleanedNonEmpty`, `CleanedNone`, `CleanedAppend` and `CleanedOne` |
| Assistant.CleanedNonEmpty | chat.js:456-457 | every surviving text is non-empty |
| Assistant.CleanedNone | chat.js:456-457 | nothing survives exactly when every sentence cleans to nothing |
| Assistant.CleanedAppend | chat.js:456-457 | cleaning a concatenation concatenates the cleanings, so the survivors keep the answer's order |
| Assistant.CleanedOne | chat.js:456-457 | a single sentence survives, cleaned, exactly when it cleans to something |
| Assistant.FeedWhileSpeaking | chat.js:574-576 | while speaking, every sentence that cleans to something joins the end of the queue in order, nothing else changes, and no speak throws |
| Assistant.FeedFromIdle | chat.js:574-576 | from idle, the first non-empty sentence is sent at once (cleaned twice) and the rest are queued in order; an answer that cleans to nothing changes nothing |
| Assistant.AnswerSpokenInOrder | chat.js:574-576 | from idle, once every request has settled, the answer's sentences have been sent in order, each cleaned twice and without an ending break, and the controller is idle again |
| Assistant.AnswerWaitsAfterFailedStop | chat.js:554 | after a failed cancel, the whole new answer waits in the queue and nothing is sent |
| Assistant.QueryHandler.constructor | chat.js:30 | `lastUserWasArabic` starts false |
| Assistant.QueryHandler.BeginUserQuery | chat.js:547-554 | the flag records whether the query is Arabic; a stop is sent exactly when the controller is speaking |
| Assistant.QueryHandler.FinishUserQuery | chat.js:556-580 | the controller ends in the state reached by speaking, in order, the sentences of the normalized answer, or of the apology in the flag's current language; it reports whether a speak threw |
| Assistant.QueryHandler.SpeakParts | chat.js:574-576 | the loop of `speak` calls reaches the state `Feed` describes, stopping at the first speak that throws |
| Assistant.QueryHandler.HandleUserQuery | chat.js:546-580 | the flag records whether the query is Arabic; with no other query during the `await`, the controller ends in the state reached by speaking the sentences of the answer or of the apology in the query's own language, and the result says whether a speak threw |

## Left out

- **Connection, backend and UI.** Avatar and WebRTC connection (`connectAvatar`, `setupWebRTC`), the backend call (`callChatbotBackend`), speech recognition and the UI handlers are not part of this model. The backend's answer or failure is the parameter `Reply`.
- **DOM.** Writes to `chatHistory` (including the `htmlEncode`d user query and its `<br/>` rewriting) and the enabling of the stop button are not modelled.
- **Clocks.** `Date.now()` and the time of each event are parameters. `setTimeout`/`clearTimeout` become a deadline that is set or cleared, and firing is an event allowed once the deadline has passed. `lastInteractionTime` and the latency log (`performance.now`, `LOG_LATENCY`) are left out.
- **Concurrency.** Promise continuations are modelled as separate events whose interleaving the caller chooses. The lemmas examine the interleavings of interest: the watchdog racing a settle, and a stop racing a speak.
- **SSML markup.** The markup around the text is reduced to the fields `speakNext` fills in: `xml:lang`, the voice, the encoded body and the break. The fixed SSML literal text is not modelled.
- **Dead branch.** The `SPEAK_BY_SENTENCES` else branch (`speak(ttsText)`) is dead, because the constant is `true`.
- **Replacement patterns.** No replacement string in the table contains `$`, so `$1${repl}` is modelled as the boundary character followed by the literal replacement. Other patterns of `String.prototype.replace` are not modelled.
- **Non-string inputs.** `String(text)` in `htmlEncode` on non-strings is not modelled: the input is a string.
- **Cleaner as a parameter.** The speech events take the text cleaner as a parameter. `SpeechController` is built with `sanitizeForSpeech`; the lemmas hold for every cleaner.
- **One clock reading per answer.** `FinishUserQuery` gives every speak of one answer the same time `now`, so all watchdog deadlines set while feeding one answer are equal.
- **Voice selector.** The French voice selector's value is part of the state (`ttsVoice`), set by `VoiceSelected`; it is not read from the page at each call.
- TtsNormalizer.SpaceUnitsDrawsOn: proves that the unit rewrite adds only spaces. It does not state on its own that every character of the text survives. `SpaceUnitsLeftmost` and `SpaceUnitsCopies` give the output exactly up to and at the first rewrite, and `SpaceUnitsKeepsArabic` gives language preservation.
- TtsNormalizer.DhPerWeekSpoken, TtsNormalizer.DhFirstSplitsRate, TtsNormalizer.DhPerSmsSpoken: each applies only the table rows it concerns, not the whole of `PassOrder`. `LongerTokensFirst` and `DhPeriodsBeforeDh` give the order in which the loop applies those rows.
- Speech.Requests: its own contract states only the length. The content of each request is stated by `Speech.RequestsPointwise`.
