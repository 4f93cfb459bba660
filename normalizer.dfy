/** normalizeForTtsBilingual: rewrites abbreviations, units and brand names
    into the words a speech voice should read, in Arabic or in French. The
    language is taken once from the input; the text then goes through two
    digit-spacing rewrites and one replacement pass per row of the
    abbreviation table, longest tokens first. */
module TtsNormalizer {
  import opened Wrappers
  import opened Chars

  /** No character of the Arabic block or above. */
  predicate Latin(s: string) {
    forall i :: 0 <= i < |s| ==> s[i] < '\U{0600}'
  }

  /** A table token: never empty, and written in Latin script. */
  type Token = s: string | s != [] && Latin(s) witness "H"

  /** A French reading: written in Latin script. */
  type LatinText = s: string | Latin(s) witness ""

  /** One row of the abbreviation table: the token and how it is spoken in
      Arabic and in French. Every row of the source table fits these types,
      which Dafny checks row by row. */
  datatype Entry = Entry(token: Token, ar: string, fr: LatinText)

  /** TTS_MAP, row by row in the source's order; the groups follow the
      blank lines of the source table, the longer groups cut in two. */
  const TtsTable: seq<Entry> :=
    DhRatesRows + BrandsRows + AnghamiRows + VolumeRatesRows + BitRatesRows + DurationsRows + NetworksRows + ServicesRows
    + OperatorRows + MeasureRows + MessagesRows + TaxesRows + OffersRows + HourRows

  /** Prices per period and per message, in dirham. */
  const DhRatesRows: seq<Entry> := [
    Entry("DH/semaine", "درهم في الأسبوع", "dirham par semaine"),
    Entry("DH/mois", "درهم في الشهر", "dirham par mois"),
    Entry("DH/jour", "درهم في اليوم", "dirham par jour"),
    Entry("DH/SMS", "درهم لكل رسالة", "dirham par SMS"),
    Entry("DH/min", "درهم للدقيقة", "dirham par minute")
  ]

  /** Service and brand names. */
  const BrandsRows: seq<Entry> := [
    Entry("VIP", "في آي بي", "VIP"),
    Entry("Aghani", "أغني", "arani"),
    Entry("A-Ghany", "أغني", "arani"),
    Entry("Playup", "Play Up", "Play Up"),
    Entry("Apps Club", "آبس كلوب", "aps club")
  ]

  /** The two spellings of Anghami. */
  const AnghamiRows: seq<Entry> := [
    Entry("Anghamy", "أنغامي (anrami)", "anrami"),
    Entry("Anghami", "أنغامي (anrami)", "anrami")
  ]

  /** Data volume rates. */
  const VolumeRatesRows: seq<Entry> := [
    Entry("Go/mois", "جيغا أوكتي في الشهر", "giga-octets par mois"),
    Entry("Mo/s", "ميغا أوكتي في الثانية", "méga-octets par seconde")
  ]

  /** Bit rates. */
  const BitRatesRows: seq<Entry> := [
    Entry("Mb/s", "ميغابت في الثانية", "mégabits par seconde"),
    Entry("Gb/s", "غيغابت في الثانية", "gigabits par seconde")
  ]

  /** Durations. */
  const DurationsRows: seq<Entry> := [
    Entry("24h", "أربع وعشرون ساعة", "vingt-quatre heures"),
    Entry("7j", "سبعة أيام", "sept jours"),
    Entry("30j", "ثلاثون يوماً", "trente jours")
  ]

  /** Network generations. */
  const NetworksRows: seq<Entry> := [
    Entry("4G+", "فور جي بلس", "quatre G plus"),
    Entry("4G", "فور جي", "quatre G"),
    Entry("5G", "فايف جي", "cinq G")
  ]

  /** Technical terms read letter by letter. */
  const ServicesRows: seq<Entry> := [
    Entry("e-SIM", "إي سيم", "e-sim"),
    Entry("Wi-Fi", "واي فاي", "wifi"),
    Entry("VoLTE", "فو إل تي إي", "V O L T E"),
    Entry("USSD", "يو إس إس دي", "U S S D"),
    Entry("ADSL", "أي دي إس إل", "A D S L"),
    Entry("IP", "آي بي", "I P"),
    Entry("PIN", "رمز سري", "P I N"),
    Entry("PUK", "رمز فك القفل", "P U K")
  ]

  /** The operator. */
  const OperatorRows: seq<Entry> := [
    Entry("IAM", "اتصالات المغرب", "Itissalat Al-Maghrib"),
    Entry("MT", "ماروك تيليكوم", "Maroc Telecom")
  ]

  /** Currency and data units. */
  const MeasureRows: seq<Entry> := [
    Entry("DH", "درهم", "dirham"),
    Entry("Go", "جيغا أوكتي", "giga-octet"),
    Entry("Mo", "ميغا أوكتي", "méga-octet"),
    Entry("Ko", "كيلو أوكتي", "kilo-octet")
  ]

  /** Messages and time units. */
  const MessagesRows: seq<Entry> := [
    Entry("SMS", "رسالة قصيرة", "S M S"),
    Entry("MMS", "رسالة وسائط", "M M S"),
    Entry("min", "دقيقة", "minute"),
    Entry("sec", "ثانية", "seconde")
  ]

  /** Taxes. */
  const TaxesRows: seq<Entry> := [
    Entry("HT", "بدون ضرائب", "hors taxes"),
    Entry("TTC", "شامل الضرائب", "toutes taxes comprises"),
    Entry("TVA", "الضريبة على القيمة المضافة", "T V A")
  ]

  /** Offers. */
  const OffersRows: seq<Entry> := [
    Entry("VUZ", "فاز", "vaz"),
    Entry("FTTR", "فايبر إلى الغرفة", "Fibre to the room")
  ]

  /** The single letter H, kept last. */
  const HourRows: seq<Entry> := [
    Entry("H", "ساعة", "heure")
  ]

  /** The column a row is read with in language `lang`. */
  function Spoken(e: Entry, lang: Lang): string {
    if lang == Ar then e.ar else e.fr
  }

  // ---------------------------------------------------------------------
  // escapeRegex and makeTokenRegex
  // ---------------------------------------------------------------------

  /** The class `[.*+?^${}()|[\]\\]` of characters escapeRegex prefixes with
      a backslash. */
  predicate IsRegexMeta(c: char) {
    c == '.' || c == '*' || c == '+' || c == '?' || c == '^' || c == '$' || c == '{' || c == '}'
    || c == '(' || c == ')' || c == '|' || c == '[' || c == ']' || c == '\\'
  }

  /** A pattern made only of literal atoms: a character that is not a
      metacharacter, or a backslash followed by a metacharacter. */
  predicate LiteralPattern(p: string)
    decreases |p|
  {
    if p == [] then true
    else if p[0] == '\\' then |p| >= 2 && IsRegexMeta(p[1]) && LiteralPattern(p[2..])
    else !IsRegexMeta(p[0]) && LiteralPattern(p[1..])
  }

  /** The text a literal pattern matches: each escaped metacharacter stands
      for itself. */
  function PatternText(p: string): string
    decreases |p|
  {
    if p == [] then []
    else if p[0] == '\\' && |p| >= 2 then [p[1]] + PatternText(p[2..])
    else [p[0]] + PatternText(p[1..])
  }

  /** escapeRegex(s) (`s.replace(/[.*+?^${}()|[\]\\]/g, "\\$&")`): the result
      is a pattern of literal atoms only, and it matches exactly `s`. */
  function EscapeRegex(s: string): (r: string)
    ensures LiteralPattern(r)
    ensures PatternText(r) == s
    decreases |s|
  {
    if s == [] then []
    else
      var rest := EscapeRegex(s[1..]);
      if IsRegexMeta(s[0]) then
        assert ['\\', s[0]] + rest == ['\\', s[0]] + rest;
        assert (['\\', s[0]] + rest)[2..] == rest;
        ['\\', s[0]] + rest
      else
        assert ([s[0]] + rest)[1..] == rest;
        [s[0]] + rest
  }

  /** The boundary class of the token pattern, `[^0-9A-Za-z؀-ۿ]` written
      negated inside the pattern. */
  const BoundaryClass: string := "0-9A-Za-z\U{0600}-\U{06FF}"
  const TokenPrefix: string := "(^|[^" + BoundaryClass + "])("
  const TokenSuffix: string := ")(?=$|[^" + BoundaryClass + "])"

  /** makeTokenRegex(token): the pattern source. Its second group, between
      the fixed prefix and suffix, matches the token literally. The meaning of
      the whole pattern under a global replace is ReplaceToken below. */
  function MakeTokenRegex(tok: Token): (r: string)
    ensures |r| == |TokenPrefix| + |EscapeRegex(tok)| + |TokenSuffix|
    ensures r[..|TokenPrefix|] == TokenPrefix && r[|r| - |TokenSuffix|..] == TokenSuffix
    ensures var group := r[|TokenPrefix|..|r| - |TokenSuffix|];
      LiteralPattern(group) && PatternText(group) == tok
  {
    var r := TokenPrefix + EscapeRegex(tok) + TokenSuffix;
    assert r[|TokenPrefix|..|r| - |TokenSuffix|] == EscapeRegex(tok);
    r
  }

  // ---------------------------------------------------------------------
  // The token pass
  // ---------------------------------------------------------------------

  /** `tok` occurs in `s` at index `q`. */
  predicate TokenAt(s: string, tok: string, q: int) {
    0 <= q && q + |tok| <= |s| && s[q..q + |tok|] == tok
  }

  /** `tok` occurs at `q` between the boundaries the token pattern demands:
      string start or a character outside `[0-9A-Za-z؀-ۿ]` before it, and
      string end or such a character after it. */
  predicate Delimited(s: string, tok: string, q: int) {
    && TokenAt(s, tok, q)
    && (q == 0 || !IsTokenChar(s[q - 1]))
    && (q + |tok| == |s| || !IsTokenChar(s[q + |tok|]))
  }

  predicate OccursDelimited(s: string, tok: string) {
    exists q :: 0 <= q <= |s| && Delimited(s, tok, q)
  }

  /** `s.replace(makeTokenRegex(tok), "$1" + repl)` from index `p` on. The
      `^` alternative only matches at index 0; elsewhere a match starts with
      the boundary character, which `$1` puts back. The lookahead does not
      consume, and the scan resumes after the token. */
  function ReplaceFrom(s: string, tok: Token, repl: string, p: nat): string
    requires p <= |s|
    decreases |s| - p
  {
    if p == |s| then []
    else if p == 0 && Delimited(s, tok, 0) then repl + ReplaceFrom(s, tok, repl, |tok|)
    else if Delimited(s, tok, p + 1) then [s[p]] + repl + ReplaceFrom(s, tok, repl, p + 1 + |tok|)
    else [s[p]] + ReplaceFrom(s, tok, repl, p + 1)
  }

  /** The scan from `p` only writes characters of the text after `p` and of
      the replacement. */
  lemma {:induction false} ReplaceFromDrawsOn(s: string, tok: Token, repl: string, p: nat)
    requires p <= |s|
    ensures forall c :: c in ReplaceFrom(s, tok, repl, p) ==> c in s[p..] || c in repl
    decreases |s| - p
  {
    if p < |s| {
      var n := if p == 0 && Delimited(s, tok, 0) then |tok| else if Delimited(s, tok, p + 1) then p + 1 + |tok| else p + 1;
      ReplaceFromDrawsOn(s, tok, repl, n);
      forall c | c in s[n..] ensures c in s[p..] {
        var k :| 0 <= k < |s| - n && s[n..][k] == c;
        assert s[p..][n - p + k] == c;
      }
    }
  }

  /** Every character after `p` that is not one of the token's survives the
      scan from `p`. */
  lemma {:induction false} ReplaceFromKeeps(s: string, tok: Token, repl: string, p: nat)
    requires p <= |s|
    ensures forall i :: p <= i < |s| && s[i] !in tok ==> s[i] in ReplaceFrom(s, tok, repl, p)
    decreases |s| - p
  {
    if p < |s| {
      var r := ReplaceFrom(s, tok, repl, p);
      if p == 0 && Delimited(s, tok, 0) {
        ReplaceFromKeeps(s, tok, repl, |tok|);
        forall i | 0 <= i < |tok| ensures s[i] in tok { assert s[i] == tok[i]; }
      } else if Delimited(s, tok, p + 1) {
        ReplaceFromKeeps(s, tok, repl, p + 1 + |tok|);
        forall i | p + 1 <= i < p + 1 + |tok| ensures s[i] in tok { assert s[i] == tok[i - p - 1]; }
        assert r[0] == s[p];
      } else {
        ReplaceFromKeeps(s, tok, repl, p + 1);
        assert r[0] == s[p];
      }
    }
  }

  /** One pass of the table loop with the replacement `repl`. */
  function ReplaceToken(s: string, tok: Token, repl: string): string {
    ReplaceFrom(s, tok, repl, 0)
  }

  /** Where `tok` does not occur delimited, the pass copies the text. */
  lemma {:induction false} NoOccurrenceCopies(s: string, tok: Token, repl: string, p: nat)
    requires p <= |s|
    requires !OccursDelimited(s, tok)
    ensures ReplaceFrom(s, tok, repl, p) == s[p..]
    decreases |s| - p
  {
    if p < |s| {
      assert !Delimited(s, tok, p + 1);
      NoOccurrenceCopies(s, tok, repl, p + 1);
      assert s[p..] == [s[p]] + s[p + 1..];
    }
  }

  /** Where `tok` does not occur delimited at any place the scan from `p` can
      still match, the scan copies the rest of the text. */
  lemma {:induction false} NoOccurrenceFrom(s: string, tok: Token, repl: string, p: nat)
    requires p <= |s|
    requires forall m :: FirstCandidate(p) <= m <= |s| ==> !Delimited(s, tok, m)
    ensures ReplaceFrom(s, tok, repl, p) == s[p..]
    decreases |s| - p
  {
    if p < |s| {
      assert !Delimited(s, tok, p + 1);
      assert p == 0 ==> !Delimited(s, tok, 0);
      NoOccurrenceFrom(s, tok, repl, p + 1);
      assert s[p..] == [s[p]] + s[p + 1..];
    }
  }

  /** The first place the scan from `p` can match: index 0 at the start,
      otherwise the index after the character at `p`. */
  function FirstCandidate(p: nat): nat {
    if p == 0 then 0 else p + 1
  }

  /** The scan copies the text up to the leftmost delimited occurrence it can
      reach, keeps the boundary character before it, replaces the token and
      goes on after it. */
  lemma {:induction false} LeftmostReplaced(s: string, tok: Token, repl: string, p: nat, q: nat)
    requires p <= |s| && FirstCandidate(p) <= q
    requires Delimited(s, tok, q)
    requires forall m :: FirstCandidate(p) <= m < q ==> !Delimited(s, tok, m)
    ensures q + |tok| <= |s|
    ensures ReplaceFrom(s, tok, repl, p) == s[p..q] + repl + ReplaceFrom(s, tok, repl, q + |tok|)
    decreases q - p
  {
    var tail := ReplaceFrom(s, tok, repl, q + |tok|);
    if q == p {
      assert s[p..q] == [];
    } else if q == p + 1 {
      assert !(p == 0 && Delimited(s, tok, 0));
      SliceCons(s, p, q);
    } else {
      assert !(p == 0 && Delimited(s, tok, 0)) && !Delimited(s, tok, p + 1);
      LeftmostReplaced(s, tok, repl, p + 1, q);
      assert ReplaceFrom(s, tok, repl, p) == [s[p]] + ReplaceFrom(s, tok, repl, p + 1);
      SliceCons(s, p, q);
      ConsAssoc(s[p], s[p + 1..q], repl, tail);
    }
  }

  /** A non-empty slice is its first character and the rest. */
  lemma SliceCons(s: string, p: nat, q: nat)
    requires p < q <= |s|
    ensures s[p..q] == [s[p]] + s[p + 1..q]
  {
  }

  /** A slice from index 0 is a prefix. */
  lemma SliceFromStart(s: string, q: nat)
    requires q <= |s|
    ensures s[0..q] == s[..q]
  {
  }

  /** A first character and two texts regroup freely. */
  lemma ConsAppend(c: char, a: string, b: string)
    ensures [c] + (a + b) == ([c] + a) + b
  {
  }

  /** Concatenation after a first character regroups freely. */
  lemma ConsAssoc(c: char, a: string, b: string, d: string)
    ensures [c] + (a + b + d) == ([c] + a) + b + d
  {
  }

  /** A pass whose token does not occur delimited leaves the text as it is. */
  lemma ReplaceTokenUnmatched(s: string, tok: Token, repl: string)
    requires !OccursDelimited(s, tok)
    ensures ReplaceToken(s, tok, repl) == s
  {
    NoOccurrenceCopies(s, tok, repl, 0);
    assert s[0..] == s;
  }

  /** A pass whose token occurs delimited replaces its leftmost delimited
      occurrence and keeps what comes before it, the boundary character
      included. */
  lemma ReplaceTokenLeftmost(s: string, tok: Token, repl: string)
    requires OccursDelimited(s, tok)
    ensures ReplaceToken(s, tok, repl) == s[..Leftmost(s, tok)] + repl + ReplaceFrom(s, tok, repl, Leftmost(s, tok) + |tok|)
  {
    var q := Leftmost(s, tok);
    assert FirstCandidate(0) == 0;
    assert ReplaceToken(s, tok, repl) == ReplaceFrom(s, tok, repl, 0);
    LeftmostReplaced(s, tok, repl, 0, q);
    SliceFromStart(s, q);
  }

  /** The leftmost delimited occurrence of a token that occurs delimited. */
  function Leftmost(s: string, tok: Token): (q: nat)
    requires OccursDelimited(s, tok)
    ensures q <= |s| && Delimited(s, tok, q)
    ensures forall m :: 0 <= m < q ==> !Delimited(s, tok, m)
  {
    LeftmostFrom(s, tok, 0)
  }

  function LeftmostFrom(s: string, tok: Token, k: nat): (q: nat)
    requires k <= |s| + 1
    requires exists q :: k <= q <= |s| && Delimited(s, tok, q)
    ensures k <= q <= |s| && Delimited(s, tok, q)
    ensures forall m :: k <= m < q ==> !Delimited(s, tok, m)
    decreases |s| + 1 - k
  {
    if Delimited(s, tok, k) then k else LeftmostFrom(s, tok, k + 1)
  }

  // ---------------------------------------------------------------------
  // The two digit-spacing rewrites
  // ---------------------------------------------------------------------

  /** The alternatives `Go|Mo|Ko|DH|Mb\/s|Gb\/s`, in the pattern's order. */
  const Units: seq<Token> := ["Go", "Mo", "Ko", "DH", "Mb/s", "Gb/s"]

  /** `\b` after a word character at index `e - 1`: the end of the text or a
      character outside `\w`. Every unit and `h`/`H` ends in a word character,
      so this is the boundary the rewrites test. */
  predicate WordEnd(s: string, e: int) {
    e == |s| || (0 <= e < |s| && !IsWordChar(s[e]))
  }

  /** Unit `u` follows at index `q`, closed by a word boundary. */
  predicate UnitAt(s: string, u: string, q: int) {
    TokenAt(s, u, q) && WordEnd(s, q + |u|)
  }

  /** The first alternative among `us` that matches at `q`. */
  function FirstUnit(s: string, q: nat, us: seq<Token>): (m: Option<Token>)
    ensures m.Some? ==> UnitAt(s, m.value, q)
    decreases |us|
  {
    if us == [] then None
    else if UnitAt(s, us[0], q) then Some(us[0])
    else FirstUnit(s, q, us[1..])
  }

  /** The alternative found is one of `us`. */
  lemma {:induction false} FirstUnitIn(s: string, q: nat, us: seq<Token>)
    ensures FirstUnit(s, q, us).Some? ==> FirstUnit(s, q, us).value in us
    decreases |us|
  {
    if us != [] && !UnitAt(s, us[0], q) {
      FirstUnitIn(s, q, us[1..]);
    }
  }

  /** No alternative matches when the search finds none. */
  lemma {:induction false} FirstUnitNone(s: string, q: nat, us: seq<Token>)
    ensures FirstUnit(s, q, us).None? ==> forall k :: 0 <= k < |us| ==> !UnitAt(s, us[k], q)
    decreases |us|
  {
    if us != [] && !UnitAt(s, us[0], q) {
      FirstUnitNone(s, q, us[1..]);
      assert forall k :: 1 <= k < |us| ==> us[k] == us[1..][k - 1];
    }
  }

  /** A digit at `q` directly followed by one of the alternatives `us` and a
      word boundary (DigitUnitMeans spells the condition out). */
  predicate DigitUnit(s: string, q: int, us: seq<Token>) {
    0 <= q < |s| && IsDigit(s[q]) && FirstUnit(s, q + 1, us).Some?
  }

  /** A digit is followed by a unit exactly when one of the alternatives
      matches after it. */
  lemma DigitUnitMeans(s: string, q: int, us: seq<Token>)
    ensures DigitUnit(s, q, us) <==>
      0 <= q < |s| && IsDigit(s[q]) && exists k :: 0 <= k < |us| && UnitAt(s, us[k], q + 1)
  {
    if 0 <= q < |s| {
      FirstUnitNone(s, q + 1, us);
      FirstUnitIn(s, q + 1, us);
      var m := FirstUnit(s, q + 1, us);
      if m.Some? {
        var k :| 0 <= k < |us| && us[k] == m.value;
      }
    }
  }

  /** `replace(/(\d)(Go|Mo|Ko|DH|Mb\/s|Gb\/s)\b/g, "$1 $2")` from index `p`,
      with the alternatives `us` (the source's are Units): one space goes
      between the digit and the unit. The lemmas hold for any list of
      alternatives, so the verifier never has to unfold the literal one. */
  function SpaceUnits(s: string, p: nat, us: seq<Token>): (r: string)
    requires p <= |s|
    ensures |r| >= |s| - p
    decreases |s| - p
  {
    if p == |s| then []
    else
      var m := FirstUnit(s, p + 1, us);
      if IsDigit(s[p]) && m.Some? then [s[p]] + " " + m.value + SpaceUnits(s, p + 1 + |m.value|, us)
      else [s[p]] + SpaceUnits(s, p + 1, us)
  }

  /** Where no digit is followed by a unit, the rewrite copies the
      character. */
  lemma NoDigitUnitCopies(s: string, p: nat, us: seq<Token>)
    requires p < |s| && !DigitUnit(s, p, us)
    ensures SpaceUnits(s, p, us) == [s[p]] + SpaceUnits(s, p + 1, us)
  {
  }

  /** At a digit followed by a unit the rewrite writes the digit, one space
      and the first alternative that matches, and goes on after the unit. */
  lemma DigitUnitSpaced(s: string, q: nat, us: seq<Token>)
    requires DigitUnit(s, q, us)
    ensures var u := FirstUnit(s, q + 1, us).value;
      SpaceUnits(s, q, us) == [s[q]] + " " + u + SpaceUnits(s, q + 1 + |u|, us)
  {
  }

  /** The unit rewrite leaves the text as it is exactly when no digit is
      followed by a unit; otherwise the text grows. */
  lemma {:induction false} SpaceUnitsChangesAtUnits(s: string, p: nat, us: seq<Token>)
    requires p <= |s|
    ensures (forall q :: p <= q < |s| ==> !DigitUnit(s, q, us)) ==> SpaceUnits(s, p, us) == s[p..]
    ensures (exists q :: p <= q < |s| && DigitUnit(s, q, us)) ==> |SpaceUnits(s, p, us)| > |s| - p
    decreases |s| - p
  {
    if p < |s| {
      if DigitUnit(s, p, us) {
        DigitUnitSpaced(s, p, us);
      } else {
        NoDigitUnitCopies(s, p, us);
        SpaceUnitsChangesAtUnits(s, p + 1, us);
        SuffixSplit(s, p, p + 1);
        assert s[p + 1..p + 1] == [];
        if exists q :: p <= q < |s| && DigitUnit(s, q, us) {
          var q :| p <= q < |s| && DigitUnit(s, q, us);
          assert q != p;
        }
      }
    }
  }

  /** The unit rewrite adds only spaces. */
  lemma {:induction false} SpaceUnitsDrawsOn(s: string, p: nat, us: seq<Token>)
    requires p <= |s|
    ensures DrawnFrom(SpaceUnits(s, p, us), s[p..])
    decreases |s| - p
  {
    if p < |s| {
      if DigitUnit(s, p, us) {
        DigitUnitSpaced(s, p, us);
        var u := FirstUnit(s, p + 1, us).value;
        var n := p + 1 + |u|;
        var rest := SpaceUnits(s, n, us);
        SpaceUnitsDrawsOn(s, n, us);
        UnitDrawn(s, p, u, rest);
      } else {
        NoDigitUnitCopies(s, p, us);
        var rest := SpaceUnits(s, p + 1, us);
        SpaceUnitsDrawsOn(s, p + 1, us);
        SuffixDrawn(s, p, p + 1);
        assert s[p] in s[p..];
        DrawnFromCons(s[p], rest, s[p..]);
      }
    }
  }

  /** The characters after `n` are characters after `p`. */
  lemma SuffixDrawn(s: string, p: nat, n: nat)
    requires p <= n <= |s|
    ensures forall c :: c in s[n..] ==> c in s[p..]
  {
    forall c | c in s[n..] ensures c in s[p..] {
      var k :| 0 <= k < |s| - n && s[n..][k] == c;
      assert s[p..][n - p + k] == c;
    }
  }

  lemma DrawnFromCons(c: char, rest: string, t: string)
    requires c in t && DrawnFrom(rest, t)
    ensures DrawnFrom([c] + rest, t)
  {
  }

  /** The step of SpaceUnitsDrawsOn where a digit and its unit are copied. */
  lemma UnitDrawn(s: string, p: nat, u: string, rest: string)
    requires p + 1 + |u| <= |s| && s[p + 1..p + 1 + |u|] == u
    requires DrawnFrom(rest, s[p + 1 + |u|..])
    ensures DrawnFrom([s[p]] + " " + u + rest, s[p..])
  {
    SuffixDrawn(s, p, p + 1 + |u|);
    forall c | c in u ensures c in s[p..] {
      var k :| 0 <= k < |u| && u[k] == c;
      assert s[p..][1 + k] == c;
    }
    assert s[p..][0] == s[p];
  }

  /** A suffix of `s` is its first character, the next `n - p - 1`, and the
      rest. */
  lemma SuffixSplit(s: string, p: nat, n: nat)
    requires p < n <= |s|
    ensures s[p..] == [s[p]] + s[p + 1..n] + s[n..]
  {
    assert s[p..] == s[p..n] + s[n..];
    assert s[p..n] == [s[p]] + s[p + 1..n];
  }

  /** Writing a space between a character and what follows it does not
      change the language. */
  lemma SpacedStepArabic(c: string, u: string, rest: string, tail: string)
    requires IsArabicText(rest) == IsArabicText(tail)
    ensures IsArabicText(c + " " + u + rest) == IsArabicText(c + u + tail)
  {
    ArabicConcat(c, " ");
    ArabicConcat(c + " ", u);
    ArabicConcat(c + " " + u, rest);
    ArabicConcat(c, u);
    ArabicConcat(c + u, tail);
  }

  /** The unit rewrite keeps the language: its output holds an Arabic
      letter exactly when the text does. */
  lemma {:induction false} SpaceUnitsKeepsArabic(s: string, p: nat, us: seq<Token>)
    requires p <= |s|
    ensures IsArabicText(SpaceUnits(s, p, us)) == IsArabicText(s[p..])
    decreases |s| - p
  {
    if p < |s| {
      var c := [s[p]];
      if DigitUnit(s, p, us) {
        DigitUnitSpaced(s, p, us);
        var u: string := FirstUnit(s, p + 1, us).value;
        var n := p + 1 + |u|;
        var rest := SpaceUnits(s, n, us);
        SpaceUnitsKeepsArabic(s, n, us);
        assert s[p..] == c + u + s[n..] by {
          assert UnitAt(s, u, p + 1);
          SuffixSplit(s, p, n);
        }
        SpacedStepArabic(c, u, rest, s[n..]);
      } else {
        NoDigitUnitCopies(s, p, us);
        var rest := SpaceUnits(s, p + 1, us);
        SpaceUnitsKeepsArabic(s, p + 1, us);
        ArabicConcat(c, rest);
        ArabicConcat(c, s[p + 1..]);
        assert s[p..] == c + s[p + 1..];
      }
    }
  }

  /** The rewrite copies the text up to the first digit followed by a unit,
      then writes that digit, one space and the first alternative that
      matches, and goes on after the unit. */
  lemma {:induction false} SpaceUnitsLeftmost(s: string, p: nat, q: nat, us: seq<Token>)
    requires p <= q && DigitUnit(s, q, us)
    requires forall m :: p <= m < q ==> !DigitUnit(s, m, us)
    ensures var u := FirstUnit(s, q + 1, us).value;
      SpaceUnits(s, p, us) == s[p..q] + ([s[q]] + " " + u + SpaceUnits(s, q + 1 + |u|, us))
  {
    SpaceUnitsCopies(s, p, q, us);
    DigitUnitSpaced(s, q, us);
  }

  /** Before the first digit followed by a unit the text is copied. */
  lemma {:induction false} SpaceUnitsCopies(s: string, p: nat, q: nat, us: seq<Token>)
    requires p <= q <= |s|
    requires forall m :: p <= m < q ==> !DigitUnit(s, m, us)
    ensures SpaceUnits(s, p, us) == s[p..q] + SpaceUnits(s, q, us)
    decreases q - p
  {
    if p == q {
      assert s[p..q] == [];
    } else {
      NoDigitUnitCopies(s, p, us);
      SpaceUnitsCopies(s, p + 1, q, us);
      SliceCons(s, p, q);
      ConsAppend(s[p], s[p + 1..q], SpaceUnits(s, q, us));
    }
  }

  /** `5Go` is read `5 Go`. */
  lemma SpaceUnitsExample()
    ensures SpaceUnits("5Go", 0, Units) == "5 Go"
  {
    var s := "5Go";
    assert UnitAt(s, Units[0], 1);
    assert FirstUnit(s, 1, Units) == Some("Go");
    SpaceUnitsLeftmost(s, 0, 0, Units);
  }

  /** A digit at `q` directly followed by `h` or `H` and a word boundary. */
  predicate DigitHour(s: string, q: int) {
    0 <= q && q + 1 < |s| && IsDigit(s[q]) && (s[q + 1] == 'h' || s[q + 1] == 'H') && WordEnd(s, q + 2)
  }

  /** `replace(/(\d)(h|H)\b/g, "$1 H")` from index `p`: a space goes after the
      digit and the hour letter is written `H`. */
  function SpaceHours(s: string, p: nat): (r: string)
    requires p <= |s|
    ensures |r| >= |s| - p
    decreases |s| - p
  {
    if p == |s| then []
    else if DigitHour(s, p) then [s[p]] + " H" + SpaceHours(s, p + 2)
    else [s[p]] + SpaceHours(s, p + 1)
  }

  /** The hour rewrite leaves the text as it is exactly when no digit is
      followed by an hour letter; otherwise the text grows. */
  lemma {:induction false} SpaceHoursChangesAtHours(s: string, p: nat)
    requires p <= |s|
    ensures (forall q :: p <= q < |s| ==> !DigitHour(s, q)) ==> SpaceHours(s, p) == s[p..]
    ensures (exists q :: p <= q < |s| && DigitHour(s, q)) ==> |SpaceHours(s, p)| > |s| - p
    decreases |s| - p
  {
    if p < |s| && !DigitHour(s, p) {
      SpaceHoursChangesAtHours(s, p + 1);
      assert s[p..] == [s[p]] + s[p + 1..];
      if exists q :: p <= q < |s| && DigitHour(s, q) {
        var q :| p <= q < |s| && DigitHour(s, q);
        assert q != p;
      }
    }
  }

  /** The only characters the hour rewrite adds are a space and `H`, and it
      keeps every character other than a lower-case `h`. */
  lemma {:induction false} SpaceHoursChars(s: string, p: nat)
    requires p <= |s|
    ensures forall c :: c in SpaceHours(s, p) ==> c in s[p..] || c == ' ' || c == 'H'
    ensures forall i :: p <= i < |s| && s[i] != 'h' ==> s[i] in SpaceHours(s, p)
    decreases |s| - p
  {
    if p < |s| {
      var r := SpaceHours(s, p);
      if DigitHour(s, p) {
        SpaceHoursChars(s, p + 2);
        forall c | c in s[p + 2..] ensures c in s[p..] {
          var k :| 0 <= k < |s| - p - 2 && s[p + 2..][k] == c;
          assert s[p..][2 + k] == c;
        }
        assert r[0] == s[p] && r[2] == 'H';
      } else {
        SpaceHoursChars(s, p + 1);
        assert s[p..] == [s[p]] + s[p + 1..];
      }
    }
  }

  /** Writing an hour letter as a space and `H` does not change the
      language. */
  lemma HourStepArabic(c: string, h: string, rest: string, tail: string)
    requires IsArabicText(rest) == IsArabicText(tail)
    requires h == "h" || h == "H"
    ensures IsArabicText(c + " H" + rest) == IsArabicText(c + h + tail)
  {
    ArabicConcat(c, " H");
    ArabicConcat(c + " H", rest);
    ArabicConcat(c, h);
    ArabicConcat(c + h, tail);
  }

  /** The hour rewrite keeps the language as well. */
  lemma {:induction false} SpaceHoursKeepsArabic(s: string, p: nat)
    requires p <= |s|
    ensures IsArabicText(SpaceHours(s, p)) == IsArabicText(s[p..])
    decreases |s| - p
  {
    if p < |s| {
      var c := [s[p]];
      if DigitHour(s, p) {
        SpaceHoursKeepsArabic(s, p + 2);
        SuffixSplit(s, p, p + 2);
        HourStepArabic(c, s[p + 1 .. p + 2], SpaceHours(s, p + 2), s[p + 2..]);
      } else {
        SpaceHoursKeepsArabic(s, p + 1);
        ArabicConcat(c, SpaceHours(s, p + 1));
        ArabicConcat(c, s[p + 1..]);
        assert s[p..] == c + s[p + 1..];
      }
    }
  }

  /** The hour rewrite copies the text up to the first digit followed by an
      hour letter, writes that digit, a space and `H`, and goes on after the
      letter. */
  lemma {:induction false} SpaceHoursLeftmost(s: string, p: nat, q: nat)
    requires p <= q && DigitHour(s, q)
    requires forall m :: p <= m < q ==> !DigitHour(s, m)
    ensures SpaceHours(s, p) == s[p..q] + ([s[q]] + " H" + SpaceHours(s, q + 2))
    decreases q - p
  {
    if p == q {
      assert s[p..q] == [];
    } else {
      SpaceHoursLeftmost(s, p + 1, q);
      SliceCons(s, p, q);
      ConsAppend(s[p], s[p + 1..q], [s[q]] + " H" + SpaceHours(s, q + 2));
    }
  }

  /** `3h` is read `3 H`. */
  lemma SpaceHoursExample()
    ensures SpaceHours("3h", 0) == "3 H"
  {
    SpaceHoursLeftmost("3h", 0, 0);
  }

  // ---------------------------------------------------------------------
  // The order of the passes
  // ---------------------------------------------------------------------

  /** Longer tokens never come after shorter ones. */
  predicate SortedByLength(es: seq<Entry>) {
    forall i, j :: 0 <= i < j < |es| ==> |es[i].token| >= |es[j].token|
  }

  /** Places `e` before the first row whose token is not longer than its own,
      so that rows of equal length keep their order. */
  function Insert(e: Entry, es: seq<Entry>): (r: seq<Entry>)
    ensures |r| == |es| + 1
    ensures forall x :: x in r <==> x in es || x == e
    ensures SortedByLength(es) ==> SortedByLength(r)
    decreases |es|
  {
    if es == [] || |e.token| >= |es[0].token| then [e] + es
    else
      var rest := Insert(e, es[1..]);
      assert es == [es[0]] + es[1..];
      assert SortedByLength(es) ==> forall x :: x in es[1..] ==> |x.token| <= |es[0].token|;
      [es[0]] + rest
  }

  /** `[...TTS_MAP].sort((a, b) => b[0].length - a[0].length)`: a stable sort
      by descending token length (Array.prototype.sort is stable). */
  function SortByLength(es: seq<Entry>): (r: seq<Entry>)
    ensures SortedByLength(r)
    ensures |r| == |es|
    decreases |es|
  {
    if es == [] then [] else Insert(es[0], SortByLength(es[1..]))
  }

  lemma {:induction false} InsertPermutes(e: Entry, es: seq<Entry>)
    ensures multiset(Insert(e, es)) == multiset(es) + multiset{e}
    decreases |es|
  {
    if es != [] && |e.token| < |es[0].token| {
      InsertPermutes(e, es[1..]);
      assert es == [es[0]] + es[1..];
    }
  }

  /** The sorted table holds exactly the rows of the table, each as many
      times. */
  lemma {:induction false} SortPermutes(es: seq<Entry>)
    ensures multiset(SortByLength(es)) == multiset(es)
    decreases |es|
  {
    if es != [] {
      SortPermutes(es[1..]);
      InsertPermutes(es[0], SortByLength(es[1..]));
      assert es == [es[0]] + es[1..];
    }
  }

  /** Every row of the sorted table is a row of the table. */
  lemma SortedRowsFromTable(es: seq<Entry>)
    ensures forall i :: 0 <= i < |SortByLength(es)| ==> SortByLength(es)[i] in es
  {
    SortPermutes(es);
    var r := SortByLength(es);
    forall i | 0 <= i < |r| ensures r[i] in es {
      assert r[i] in multiset(r);
    }
  }

  /** The rows of `es` whose token has length `n`, in order. */
  function WithLength(es: seq<Entry>, n: nat): seq<Entry>
    decreases |es|
  {
    if es == [] then []
    else (if |es[0].token| == n then [es[0]] else []) + WithLength(es[1..], n)
  }

  lemma {:induction false} InsertWithLength(e: Entry, es: seq<Entry>, n: nat)
    requires SortedByLength(es)
    ensures WithLength(Insert(e, es), n) == (if |e.token| == n then [e] else []) + WithLength(es, n)
    decreases |es|
  {
    if es == [] || |e.token| >= |es[0].token| {
      assert ([e] + es)[1..] == es;
    } else {
      var rest := Insert(e, es[1..]);
      InsertWithLength(e, es[1..], n);
      assert ([es[0]] + rest)[1..] == rest;
    }
  }

  /** The sort is stable: for every length, the rows of that length appear
      in the sorted table in their original order. */
  lemma {:induction false} SortIsStable(es: seq<Entry>, n: nat)
    ensures WithLength(SortByLength(es), n) == WithLength(es, n)
    decreases |es|
  {
    if es != [] {
      SortIsStable(es[1..], n);
      InsertWithLength(es[0], SortByLength(es[1..]), n);
    }
  }

  /** The table in the order the loop visits it. */
  function PassOrder(): (r: seq<Entry>)
    ensures SortedByLength(r)
    ensures |r| == |TtsTable|
  {
    SortByLength(TtsTable)
  }

  /** A pass whose token is longer runs before every pass whose token is
      shorter: for instance `DH/semaine` is rewritten before `DH` can take its
      first two letters. */
  lemma DhPeriodsBeforeDh()
    ensures forall i, j ::
      (0 <= i < |PassOrder()| && 0 <= j < |PassOrder()| && PassOrder()[i].token == "DH/semaine" && PassOrder()[j].token == "DH")
      ==> i < j
  {
    var order := PassOrder();
    forall i, j | 0 <= i < |order| && 0 <= j < |order| && order[i].token == "DH/semaine" && order[j].token == "DH"
      ensures i < j
    {
      assert |order[i].token| > |order[j].token|;
    }
  }

  // ---------------------------------------------------------------------
  // normalizeForTtsBilingual
  // ---------------------------------------------------------------------

  /** One iteration of the table loop: the row's column for `lang`, skipped
      when that column is empty (`if (!repl) continue;`). */
  function Pass(s: string, e: Entry, lang: Lang): string {
    var repl := Spoken(e, lang);
    if repl == [] then s else ReplaceToken(s, e.token, repl)
  }

  /** The passes of `es` applied in order, each to the output of the one
      before. */
  function ApplyRules(s: string, es: seq<Entry>, lang: Lang): string
    decreases |es|
  {
    if es == [] then s else Pass(ApplyRules(s, es[..|es| - 1], lang), es[|es| - 1], lang)
  }

  /** The text the table passes start from. */
  function Spaced(t: string): string {
    SpaceHours(SpaceUnits(t, 0, Units), 0)
  }

  /** What normalizeForTtsBilingual returns. An undefined or empty text gives
      the empty string. */
  function Normalized(text: Option<string>): (r: string)
    ensures text.None? || text == Some([]) ==> r == []
  {
    match text
    case None => []
    case Some(t) => if t == [] then [] else ApplyRules(Spaced(t), PassOrder(), DetectLang(t))
  }

  /** normalizeForTtsBilingual(text), with the table loop of the source. */
  method NormalizeForTtsBilingual(text: Option<string>) returns (out: string)
    ensures out == Normalized(text)
  {
    if text.None? || text.value == [] {
      return [];
    }
    var t := text.value;
    var lang := DetectLang(t);
    out := SpaceUnits(t, 0, Units);
    out := SpaceHours(out, 0);
    var sorted := SortByLength(TtsTable);
    for k := 0 to |sorted|
      invariant out == ApplyRules(Spaced(t), sorted[..k], lang)
    {
      var e := sorted[k];
      var repl := if lang == Ar then e.ar else e.fr;
      if repl == [] {
        assert sorted[..k + 1][..k] == sorted[..k];
        continue;
      }
      out := ReplaceToken(out, e.token, repl);
      assert sorted[..k + 1][..k] == sorted[..k];
    }
    assert sorted[..|sorted|] == sorted;
  }

  // ---------------------------------------------------------------------
  // Properties of the whole rewrite
  // ---------------------------------------------------------------------

  lemma LatinNotArabic(s: string)
    requires Latin(s)
    ensures !IsArabicText(s)
  {
  }

  /** A character of `a` occurs in `b`: Arabic text stays Arabic. */
  lemma ArabicKept(a: string, b: string)
    requires IsArabicText(a)
    requires forall c :: c in a ==> c in b
    ensures IsArabicText(b)
  {
    var i :| 0 <= i < |a| && IsArabicChar(a[i]);
    assert a[i] in b;
  }

  /** One pass keeps the language of the text it rewrites: an Arabic character
      is never part of a token, and a French reading adds none. */
  lemma PassKeepsLanguage(s: string, e: Entry, lang: Lang)
    requires lang == Ar ==> IsArabicText(s)
    requires lang == Fr ==> !IsArabicText(s)
    ensures IsArabicText(Pass(s, e, lang)) == IsArabicText(s)
  {
    var repl := Spoken(e, lang);
    if repl != [] {
      var r := ReplaceToken(s, e.token, repl);
      ReplaceFromDrawsOn(s, e.token, repl, 0);
      ReplaceFromKeeps(s, e.token, repl, 0);
      if lang == Ar {
        var i :| 0 <= i < |s| && IsArabicChar(s[i]);
        assert s[i] !in e.token;
        assert s[i] in r;
        ArabicKept([s[i]], r);
      } else {
        LatinNotArabic(repl);
        assert s[0..] == s;
        forall i | 0 <= i < |r| ensures !IsArabicChar(r[i]) {
          assert r[i] in s || r[i] in repl;
        }
      }
    }
  }

  lemma {:induction false} RulesKeepLanguage(s: string, es: seq<Entry>, lang: Lang)
    requires lang == Ar ==> IsArabicText(s)
    requires lang == Fr ==> !IsArabicText(s)
    ensures IsArabicText(ApplyRules(s, es, lang)) == IsArabicText(s)
    decreases |es|
  {
    if es != [] {
      var init := es[..|es| - 1];
      RulesKeepLanguage(s, init, lang);
      PassKeepsLanguage(ApplyRules(s, init, lang), es[|es| - 1], lang);
    }
  }

  /** The digit-spacing rewrites add no Arabic character and lose none. */
  lemma SpacedKeepsLanguage(t: string)
    ensures IsArabicText(Spaced(t)) == IsArabicText(t)
  {
    var u := SpaceUnits(t, 0, Units);
    SpaceUnitsKeepsArabic(t, 0, Units);
    SpaceHoursKeepsArabic(u, 0);
    assert t[0..] == t && u[0..] == u;
  }

  /** The language the source fixes once from the input is also the language
      of the output: Arabic input stays Arabic and French input gains no
      Arabic character. */
  lemma NormalizeKeepsLanguage(t: string)
    ensures DetectLang(Normalized(Some(t))) == DetectLang(t)
  {
    if t != [] {
      SpacedKeepsLanguage(t);
      RulesKeepLanguage(Spaced(t), PassOrder(), DetectLang(t));
    }
  }

  /** Passes whose tokens do not occur delimited leave the text unchanged. */
  lemma {:induction false} RulesPassThrough(s: string, es: seq<Entry>, lang: Lang)
    requires forall e :: e in es ==> !OccursDelimited(s, e.token)
    ensures ApplyRules(s, es, lang) == s
    decreases |es|
  {
    if es != [] {
      var init := es[..|es| - 1];
      assert forall e :: e in init ==> e in es;
      RulesPassThrough(s, init, lang);
      var e := es[|es| - 1];
      ReplaceTokenUnmatched(s, e.token, Spoken(e, lang));
    }
  }

  /** Text in which no digit is followed by a unit or an hour letter and no
      table token occurs between boundaries is returned as it is; so `VIP`
      never triggers the `IP` row, whose token is preceded by a letter. */
  lemma NormalizePassThrough(t: string)
    requires forall q :: 0 <= q < |t| ==> !DigitUnit(t, q, Units) && !DigitHour(t, q)
    requires forall e :: e in TtsTable ==> !OccursDelimited(t, e.token)
    ensures Normalized(Some(t)) == t
  {
    if t != [] {
      assert t[0..] == t;
      SpaceUnitsChangesAtUnits(t, 0, Units);
      SpaceHoursChangesAtHours(t, 0);
      assert Spaced(t) == t;
      var order := PassOrder();
      SortedRowsFromTable(TtsTable);
      RulesPassThrough(t, order, DetectLang(t));
    }
  }

  /** Inside `VIP` the token `IP` is preceded by a letter, so it does not
      occur between boundaries. */
  lemma VipIsNotIp()
    ensures !OccursDelimited("VIP", "IP")
  {
    forall q | 0 <= q <= 3 ensures !Delimited("VIP", "IP", q) {
      if q == 1 { assert "VIP"[0] == 'V'; }
    }
  }

  /** A token can only occur where its first character does. */
  lemma NotAt(s: string, tok: Token, m: int)
    requires 0 <= m < |s| && s[m] != tok[0]
    ensures !Delimited(s, tok, m)
  {
  }

  /** A token whose first character is absent does not occur. */
  lemma FirstCharAbsent(s: string, tok: Token)
    requires tok[0] !in s
    ensures !OccursDelimited(s, tok)
  {
    forall q | 0 <= q <= |s| ensures !Delimited(s, tok, q) {
      if q < |s| {
        NotAt(s, tok, q);
      }
    }
  }

  /** A token that occurs once, between boundaries, with its first
      character nowhere else, is replaced and the rest is kept. */
  lemma TokenReplacedOnce(pre: string, tok: Token, post: string, repl: string)
    requires pre == [] || !IsTokenChar(pre[|pre| - 1])
    requires post == [] || !IsTokenChar(post[0])
    requires tok[0] !in pre && tok[0] !in post
    ensures ReplaceToken(pre + tok + post, tok, repl) == pre + repl + post
  {
    var s := pre + tok + post;
    var n := |pre| + |tok|;
    assert s[|pre|..n] == tok;
    assert s[..|pre|] == pre && s[n..] == post;
    NotBefore(pre, tok, post);
    NotAfter(pre, tok, post);
    OnlyOccurrence(s, tok, repl, |pre|);
  }

  /** A token that occurs delimited at `q` and nowhere else the scan can
      match is replaced there, and the rest of the text is kept. */
  lemma OnlyOccurrence(s: string, tok: Token, repl: string, q: nat)
    requires Delimited(s, tok, q)
    requires forall m :: 0 <= m < q ==> !Delimited(s, tok, m)
    requires forall m :: q + |tok| < m <= |s| ==> !Delimited(s, tok, m)
    ensures ReplaceToken(s, tok, repl) == s[..q] + repl + s[q + |tok|..]
  {
    assert ReplaceToken(s, tok, repl) == ReplaceFrom(s, tok, repl, 0);
    SliceFromStart(s, q);
    assert FirstCandidate(0) == 0;
    LeftmostReplaced(s, tok, repl, 0, q);
    NoOccurrenceFrom(s, tok, repl, q + |tok|);
  }

  /** No occurrence starts inside `pre`. */
  lemma NotBefore(pre: string, tok: Token, post: string)
    requires tok[0] !in pre
    ensures forall m :: 0 <= m < |pre| ==> !Delimited(pre + tok + post, tok, m)
  {
    var s := pre + tok + post;
    forall m | 0 <= m < |pre| ensures !Delimited(s, tok, m) {
      assert s[m] == pre[m];
      NotAt(s, tok, m);
    }
  }

  /** No occurrence starts inside `post`, nor at its end. */
  lemma NotAfter(pre: string, tok: Token, post: string)
    requires tok[0] !in post
    ensures var s := pre + tok + post;
      forall m :: |pre| + |tok| < m <= |s| ==> !Delimited(s, tok, m)
  {
    var s := pre + tok + post;
    var n := |pre| + |tok|;
    forall m | n < m <= |s| ensures !Delimited(s, tok, m) {
      if m < |s| {
        assert s[m] == post[m - n];
        NotAt(s, tok, m);
      }
    }
  }

  /** Two passes in a row. */
  lemma TwoPasses(s: string, e1: Entry, e2: Entry, lang: Lang)
    ensures ApplyRules(s, [e1, e2], lang) == Pass(Pass(s, e1, lang), e2, lang)
  {
    assert ApplyRules(s, [e1], lang) == Pass(s, e1, lang) by {
      assert [e1][..0] == [];
    }
    assert [e1, e2][..1] == [e1];
  }

  /** A pass whose token is longer runs before every pass whose token is
      shorter. */
  lemma LongerTokensFirst(i: int, j: int)
    requires 0 <= i < |PassOrder()| && 0 <= j < |PassOrder()|
    requires |PassOrder()[i].token| > |PassOrder()[j].token|
    ensures i < j
  {
  }

  /** With the order the loop uses, `DH/semaine` is read as a whole and the
      `DH` row finds nothing left to split. */
  lemma DhPerWeekSpoken()
    ensures ApplyRules("20 " + "DH/semaine", [DhRatesRows[0], MeasureRows[0]], Fr) == "20 " + "dirham par semaine"
  {
    DhIdle("20 " + "dirham par semaine");
    TwoPasses("20 " + "DH/semaine", DhRatesRows[0], MeasureRows[0], Fr);
    WeekRateRead();
  }

  /** The rate row reads `DH/semaine` after a space. */
  lemma WeekRateRead()
    ensures Pass("20 " + "DH/semaine", DhRatesRows[0], Fr) == "20 " + "dirham par semaine"
  {
    var e := DhRatesRows[0];
    TokenReplacedOnce("20 ", e.token, [], e.fr);
    assert "20 " + e.token + [] == "20 " + e.token;
    assert "20 " + e.fr + [] == "20 " + e.fr;
  }

  /** The `DH` row leaves a text without a `D` alone. */
  lemma DhIdle(s: string)
    requires 'D' !in s
    ensures Pass(s, MeasureRows[0], Fr) == s
  {
    var e := MeasureRows[0];
    FirstCharAbsent(s, e.token);
    ReplaceTokenUnmatched(s, e.token, e.fr);
  }

  /** The other order would split the rate: `DH` takes its letters first and
      the rate row finds nothing left to read. */
  lemma DhFirstSplitsRate()
    ensures ApplyRules("20 " + "DH" + "/semaine", [MeasureRows[0], DhRatesRows[0]], Fr) == "20 " + "dirham" + "/semaine"
  {
    RateIdle("20 " + "dirham" + "/semaine");
    TwoPasses("20 " + "DH" + "/semaine", MeasureRows[0], DhRatesRows[0], Fr);
    DhSplitsRate();
  }

  /** The `DH` row takes the first two letters of a rate. */
  lemma DhSplitsRate()
    ensures Pass("20 " + "DH" + "/semaine", MeasureRows[0], Fr) == "20 " + "dirham" + "/semaine"
  {
    var e := MeasureRows[0];
    TokenReplacedOnce("20 ", e.token, "/semaine", e.fr);
  }

  /** The `DH/semaine` row leaves a text without a `D` alone. */
  lemma RateIdle(s: string)
    requires 'D' !in s
    ensures Pass(s, DhRatesRows[0], Fr) == s
  {
    var e := DhRatesRows[0];
    FirstCharAbsent(s, e.token);
    ReplaceTokenUnmatched(s, e.token, e.fr);
  }

  /** `DH/SMS` is read as a whole, and the `SMS` of its reading is then
      spelled out. */
  lemma DhPerSmsSpoken()
    ensures ApplyRules("DH/SMS", [DhRatesRows[3], MessagesRows[0]], Fr) == "dirham par " + "S M S"
  {
    TwoPasses("DH/SMS", DhRatesRows[3], MessagesRows[0], Fr);
    SmsRateRead();
    SmsSpelled();
  }

  /** The rate row reads the whole text `DH/SMS`. */
  lemma SmsRateRead()
    ensures Pass("DH/SMS", DhRatesRows[3], Fr) == "dirham par " + "SMS"
  {
    var e := DhRatesRows[3];
    TokenReplacedOnce([], e.token, [], e.fr);
    assert [] + e.token + [] == e.token;
    assert [] + e.fr + [] == "dirham par " + "SMS";
  }

  /** The `SMS` row spells out the end of the rate's reading. */
  lemma SmsSpelled()
    ensures Pass("dirham par " + "SMS", MessagesRows[0], Fr) == "dirham par " + "S M S"
  {
    var e := MessagesRows[0];
    TokenReplacedOnce("dirham par ", e.token, [], e.fr);
    assert "dirham par " + e.token + [] == "dirham par " + e.token;
    assert "dirham par " + e.fr + [] == "dirham par " + e.fr;
  }

  /** The hour rewrite runs before the table, so `24h` becomes `24 H` and the
      `24h` row no longer occurs. */
  lemma DayRowShadowed()
    ensures Spaced("24h") == "24 H"
    ensures !OccursDelimited(Spaced("24h"), DurationsRows[0].token)
  {
    var s := "24h";
    UnitStarts();
    NoUnitsIn(s, Units);
    assert !DigitHour(s, 0);
    SpaceHoursLeftmost(s, 0, 1);
    var t := "24 H";
    forall q | 0 <= q <= |t| ensures !Delimited(t, "24h", q) {
      if q <= 1 {
        assert t[q + 2] != 'h';
      }
    }
  }

  /** Where a word character follows, the hour rewrite leaves `24h` alone
      and the row reads it. */
  lemma DayRowAfterUnderscore()
    ensures Spaced("24h" + "_") == "24h" + "_"
    ensures Pass("24h" + "_", DurationsRows[0], Fr) == "vingt-quatre heures" + "_"
  {
    UnderscoreKept();
    UnderscoreRead();
  }

  /** Neither digit-spacing rewrite touches `24h_`. */
  lemma UnderscoreKept()
    ensures Spaced("24h" + "_") == "24h" + "_"
  {
    var s := "24h" + "_";
    UnitStarts();
    NoUnitsIn(s, Units);
    forall q | 0 <= q < |s| ensures !DigitHour(s, q) {
    }
    SpaceHoursChangesAtHours(s, 0);
    assert s[0..] == s;
  }

  /** The `24h` row reads `24h_`, keeping the underscore. */
  lemma UnderscoreRead()
    ensures Pass("24h" + "_", DurationsRows[0], Fr) == "vingt-quatre heures" + "_"
  {
    var e := DurationsRows[0];
    TokenReplacedOnce([], e.token, "_", e.fr);
    assert [] + e.token + "_" == e.token + "_";
    assert [] + e.fr + "_" == e.fr + "_";
  }

  /** Every unit starts with `G`, `M`, `K` or `D`. */
  lemma UnitStarts()
    ensures forall k :: 0 <= k < |Units| ==> Units[k][0] in {'G', 'M', 'K', 'D'}
  {
  }

  /** A digit can only be followed by a unit where one of the units' first
      letters comes next. */
  lemma NoUnitAfter(s: string, q: int, us: seq<Token>)
    requires forall k :: 0 <= k < |us| ==> us[k][0] in {'G', 'M', 'K', 'D'}
    requires 0 <= q < |s|
    requires q + 1 == |s| || s[q + 1] !in {'G', 'M', 'K', 'D'}
    ensures !DigitUnit(s, q, us)
  {
    FirstUnitIn(s, q + 1, us);
  }

  /** A text of digits, `h` and `_` has no digit followed by a unit, so the
      unit rewrite copies it. */
  lemma NoUnitsIn(s: string, us: seq<Token>)
    requires forall k :: 0 <= k < |us| ==> us[k][0] in {'G', 'M', 'K', 'D'}
    requires forall i :: 0 <= i < |s| ==> IsDigit(s[i]) || s[i] == 'h' || s[i] == '_'
    ensures SpaceUnits(s, 0, us) == s
  {
    forall q | 0 <= q < |s| ensures !DigitUnit(s, q, us) {
      NoUnitAfter(s, q, us);
    }
    SpaceUnitsChangesAtUnits(s, 0, us);
    assert s[0..] == s;
  }
}
