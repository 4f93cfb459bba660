/** sanitizeForSpeech: the chain of six rewrites and a trim that removes
    markdown and layout from an answer before it is spoken. Each regular
    expression of the chain is one scanning function here, applied in the
    source's order; the trim is Chars.Trim. */
module Sanitize {
  import opened Wrappers
  import opened Chars

  // `replace(/\*\*/g, "")`: pairs of asterisks, taken left to right. Only
  // asterisks go, two at a time; every other character is kept in order.
  function RemoveDoubleStars(s: string): (r: string)
    ensures DrawnFrom(r, s)
    ensures Without(r, {'*'}) == Without(s, {'*'})
    decreases |s|
  {
    if s == [] then []
    else if |s| >= 2 && s[0] == '*' && s[1] == '*' then
      assert s[1..][1..] == s[2..];
      RemoveDoubleStars(s[2..])
    else
      var rest := RemoveDoubleStars(s[1..]);
      WithoutCons(s[0], rest, {'*'});
      [s[0]] + rest
  }

  // `replace(/\*/g, "")`: every remaining asterisk; every other character is
  // kept in order.
  function RemoveStars(s: string): (r: string)
    ensures '*' !in r
    ensures DrawnFrom(r, s)
    ensures Without(r, {'*'}) == Without(s, {'*'})
    decreases |s|
  {
    if s == [] then []
    else if s[0] == '*' then RemoveStars(s[1..])
    else
      var rest := RemoveStars(s[1..]);
      WithoutCons(s[0], rest, {'*'});
      [s[0]] + rest
  }

  // The number of leading `#` characters of `s`, at most `max`.
  function HashRun(s: string, max: nat): (n: nat)
    ensures n <= max && n <= |s|
    ensures forall i :: 0 <= i < n ==> s[i] == '#'
    ensures n < max && n < |s| ==> s[n] != '#'
    decreases max
  {
    if max == 0 || s == [] || s[0] != '#' then 0 else 1 + HashRun(s[1..], max - 1)
  }

  // `replace(/#{1,6}\s*/g, "")`: a run of one to six `#` and the whitespace
  // after it. What is neither `#` nor whitespace is kept in order.
  function StripHeadings(s: string): (r: string)
    ensures '#' !in r
    ensures DrawnFrom(r, s)
    ensures Visible(r, {'#'}) == Visible(s, {'#'})
    decreases |s|
  {
    if s == [] then []
    else if s[0] == '#' then
      var n := HashRun(s, 6);
      var rest := TrimStart(s[n..]);
      HeadingStep(s);
      HeadingDrawnFrom(s, StripHeadings(rest));
      StripHeadings(rest)
    else
      var rest := StripHeadings(s[1..]);
      VisibleCons(s[0], rest, {'#'});
      ConsDrawnFrom(s, rest);
      [s[0]] + rest
  }

  // One heading match removes nothing but `#` and whitespace.
  lemma HeadingStep(s: string)
    requires s != [] && s[0] == '#'
    ensures Visible(s, {'#'}) == Visible(TrimStart(s[HashRun(s, 6)..]), {'#'})
  {
    var n := HashRun(s, 6);
    assert s == s[..n] + s[n..];
    VisibleAppend(s[..n], s[n..], {'#'});
    VisibleNone(s[..n], {'#'});
    TrimStartKeepsVisible(s[n..], {'#'});
  }

  // What is drawn from the text after a heading match is drawn from the text.
  lemma HeadingDrawnFrom(s: string, r: string)
    requires s != [] && s[0] == '#' && DrawnFrom(r, TrimStart(s[HashRun(s, 6)..]))
    ensures DrawnFrom(r, s)
  {
    var n := HashRun(s, 6);
    TrimStartDrawnFrom(s[n..], r);
    DropDrawnFrom(s, n, r);
  }

  lemma TrimStartDrawnFrom(u: string, r: string)
    requires DrawnFrom(r, TrimStart(u))
    ensures DrawnFrom(r, u)
  {
    var d := TrimStart(u);
    SliceKeeps(u, |u| - |d|, |u|);
    assert u[|u| - |d|..|u|] == d;
    DrawnFromTrans(r, d, u);
  }

  lemma DropDrawnFrom(s: string, n: nat, r: string)
    requires n <= |s| && DrawnFrom(r, s[n..])
    ensures DrawnFrom(r, s)
  {
    SliceKeeps(s, n, |s|);
    assert s[n..|s|] == s[n..];
    DrawnFromTrans(r, s[n..], s);
  }

  predicate IsBullet(c: char) {
    c == '-' || c == '•'
  }

  // The length of a match of `\s*[-•]\s*` at the start of `t`, if there is
  // one. Both `\s*` are greedy; a bullet is not whitespace, so no
  // backtracking is possible.
  function BulletMatch(t: string): (k: Option<nat>)
    ensures k.Some? ==> 0 < k.value <= |t|
    ensures k.Some? <==> TrimStart(t) != [] && IsBullet(TrimStart(t)[0])
  {
    var a := TrimStart(t);
    if a != [] && IsBullet(a[0]) then Some(|t| - |TrimStart(a[1..])|) else None
  }

  // `replace(/(^|\n)\s*[-•]\s*/g, "$1")`. Without the `m` flag `^` matches
  // only at index 0, so a match starts at the beginning of the text or at a
  // line feed; the line feed is kept, the rest of the match removed.
  // What is neither a bullet nor whitespace is kept in order.
  function StripBullets(s: string): (r: string)
    ensures DrawnFrom(r, s)
    ensures Visible(r, {'-', '•'}) == Visible(s, {'-', '•'})
  {
    match BulletMatch(s)
    case Some(k) =>
      BulletStep(s);
      BulletLines(s[k..])
    case None => BulletLines(s)
  }

  // A bullet match removes whitespace and one bullet, nothing else.
  lemma BulletStep(t: string)
    requires BulletMatch(t).Some?
    ensures Visible(t, {'-', '•'}) == Visible(t[BulletMatch(t).value..], {'-', '•'})
  {
    var a := TrimStart(t);
    var b := TrimStart(a[1..]);
    BulletRest(t, a, b);
    BulletVisible(t, a, b);
  }

  // What follows a bullet match is the whitespace-trimmed rest of the line.
  lemma BulletRest(t: string, a: string, b: string)
    requires BulletMatch(t).Some? && a == TrimStart(t) && b == TrimStart(a[1..])
    ensures t[BulletMatch(t).value..] == b
  {
    BulletMatchValue(t);
    SuffixOfTail(t, a, b);
  }

  lemma BulletMatchValue(t: string)
    requires BulletMatch(t).Some?
    ensures BulletMatch(t).value == |t| - |TrimStart(TrimStart(t)[1..])|
  {
  }

  lemma BulletVisible(t: string, a: string, b: string)
    requires a == TrimStart(t) && a != [] && IsBullet(a[0]) && b == TrimStart(a[1..])
    ensures Visible(t, {'-', '•'}) == Visible(b, {'-', '•'})
  {
    TrimStartKeepsVisible(t, {'-', '•'});
    TrimStartKeepsVisible(a[1..], {'-', '•'});
  }

  // A suffix of the tail of a suffix of `t` is a suffix of `t`.
  lemma SuffixOfTail(t: string, a: string, b: string)
    requires |a| <= |t| && a == t[|t| - |a|..] && a != []
    requires |b| <= |a| - 1 && b == a[1..][|a| - 1 - |b|..]
    ensures b == t[|t| - |b|..]
  {
  }

  // The scan of StripBullets past index 0, where only the `\n` alternative
  // can start a match. Line feeds and what is neither a bullet nor whitespace
  // are kept in order.
  function BulletLines(s: string): (r: string)
    ensures DrawnFrom(r, s)
    ensures Visible(r, {'-', '•'}) == Visible(s, {'-', '•'})
    decreases |s|
  {
    if s == [] then []
    else if s[0] == '\n' && BulletMatch(s[1..]).Some? then
      var k := BulletMatch(s[1..]).value;
      var rest := BulletLines(s[1 + k..]);
      BulletStep(s[1..]);
      assert s[1..][k..] == s[1 + k..];
      VisibleCons('\n', rest, {'-', '•'});
      BreakDrawnFrom(rest, s[1 + k..], s, s);
      ConsDrawnFrom(s, rest);
      "\n" + rest
    else
      var rest := BulletLines(s[1..]);
      VisibleCons(s[0], rest, {'-', '•'});
      ConsDrawnFrom(s, rest);
      [s[0]] + rest
  }

  // Drops the leading run of line feeds.
  function DropLineFeeds(s: string): (r: string)
    ensures |r| <= |s| && r == s[|s| - |r|..]
    ensures forall i :: 0 <= i < |s| - |r| ==> s[i] == '\n'
    ensures r == [] || r[0] != '\n'
    decreases |s|
  {
    if s != [] && s[0] == '\n' then
      var r := DropLineFeeds(s[1..]);
      assert forall i :: 1 <= i < |s| - |r| ==> s[i] == s[1..][i - 1];
      r
    else s
  }

  // Dropping line feeds keeps the visible text.
  lemma {:induction false} DropLineFeedsKeepsVisible(s: string)
    ensures Visible(DropLineFeeds(s), {}) == Visible(s, {})
    decreases |s|
  {
    if s != [] && s[0] == '\n' { DropLineFeedsKeepsVisible(s[1..]); }
  }

  // `replace(/\r?\n+/g, " ")`: a line break run becomes one space. A carriage
  // return not followed by a line feed is left alone.
  function CollapseNewlines(s: string): (r: string)
    ensures '\n' !in r
    ensures DrawnFrom(r, s)
    ensures Visible(r, {}) == Visible(s, {})
    decreases |s|
  {
    if s == [] then []
    else if s[0] == '\r' && |s| > 1 && s[1] == '\n' then
      var d := DropLineFeeds(s[1..]);
      var rest := CollapseNewlines(d);
      DropLineFeedsKeepsVisible(s[1..]);
      VisibleCons(' ', rest, {});
      BreakDrawnFrom(rest, d, s[1..], s);
      " " + rest
    else if s[0] == '\n' then
      var d := DropLineFeeds(s);
      var rest := CollapseNewlines(d);
      DropLineFeedsKeepsVisible(s);
      VisibleCons(' ', rest, {});
      BreakDrawnFrom(rest, d, s, s);
      " " + rest
    else
      var rest := CollapseNewlines(s[1..]);
      VisibleCons(s[0], rest, {});
      ConsDrawnFrom(s, rest);
      [s[0]] + rest
  }

  // Text drawn from a suffix `d` of a suffix `u` of `s` is drawn from `s`,
  // also after a space.
  lemma BreakDrawnFrom(rest: string, d: string, u: string, s: string)
    requires DrawnFrom(rest, d) && |d| <= |u| && d == u[|u| - |d|..]
    requires |u| <= |s| && u == s[|s| - |u|..]
    ensures DrawnFrom(rest, s) && DrawnFrom(" " + rest, s)
  {
    SliceKeeps(u, |u| - |d|, |u|);
    SliceKeeps(s, |s| - |u|, |s|);
  }

  // The first character followed by text drawn from the rest.
  lemma ConsDrawnFrom(s: string, rest: string)
    requires s != [] && DrawnFrom(rest, s[1..])
    ensures DrawnFrom([s[0]] + rest, s)
  {
    SliceKeeps(s, 1, |s|);
  }

  // `replace(/\s{2,}/g, " ")`: a whitespace run of two or more becomes one
  // space; a single whitespace character stays as it is.
  function CollapseSpaces(s: string): (r: string)
    ensures NoDoubleSpace(r)
    ensures DrawnFrom(r, s)
    ensures s != [] ==> r != [] && (IsSpace(r[0]) <==> IsSpace(s[0]))
    ensures Visible(r, {}) == Visible(s, {})
    decreases |s|
  {
    if s == [] then []
    else if |s| >= 2 && IsSpace(s[0]) && IsSpace(s[1]) then
      var rest := CollapseSpaces(TrimStart(s));
      ConsNoDoubleSpace(' ', rest);
      TrimStartKeepsVisible(s, {});
      VisibleCons(' ', rest, {});
      TrimStartDrawnFrom(s, rest);
      SpaceDrawnFrom(rest, s);
      " " + rest
    else
      var rest := CollapseSpaces(s[1..]);
      VisibleCons(s[0], rest, {});
      ConsDrawnFrom(s, rest);
      ConsNoDoubleSpace(s[0], rest);
      [s[0]] + rest
  }

  // Putting a character before a text keeps it free of adjacent whitespace
  // unless both the character and the text's first one are whitespace.
  lemma ConsNoDoubleSpace(c: char, rest: string)
    requires NoDoubleSpace(rest) && (IsSpace(c) && rest != [] ==> !IsSpace(rest[0]))
    ensures NoDoubleSpace([c] + rest)
  {
    var s := [c] + rest;
    forall i | 0 < i < |s| ensures !(IsSpace(s[i - 1]) && IsSpace(s[i])) {
      assert s[i] == rest[i - 1];
      if i > 1 { assert s[i - 1] == rest[i - 2]; }
    }
  }

  lemma SpaceDrawnFrom(rest: string, s: string)
    requires DrawnFrom(rest, s)
    ensures DrawnFrom(" " + rest, s)
  {
  }

  // sanitizeForSpeech(raw). An undefined or empty input gives the empty
  // string; the result holds no asterisk, no `#`, no line feed, no two
  // adjacent whitespace characters, does not start or end with whitespace,
  // and introduces no character other than a space. Every character that is
  // not whitespace and not one of the markers `*`, `#`, `-`, `•` is kept, in
  // order.
  function SanitizeForSpeech(raw: Option<string>): (r: string)
    ensures raw.None? || raw == Some([]) ==> r == []
    ensures '*' !in r && '#' !in r && '\n' !in r
    ensures NoDoubleSpace(r) && Trimmed(r)
    ensures DrawnFrom(r, OrEmpty(raw))
    ensures Visible(r, Markers) == Visible(OrEmpty(raw), Markers)
  {
    var text := OrEmpty(raw);
    var s1 := RemoveDoubleStars(text);
    var s2 := RemoveStars(s1);
    var s3 := StripHeadings(s2);
    var s4 := StripBullets(s3);
    var s5 := CollapseNewlines(s4);
    var s6 := CollapseSpaces(s5);
    var r := Trim(s6);
    TrimKeeps(s6);
    DrawnFromTrans(s2, s1, text);
    DrawnFromTrans(s3, s2, text);
    DrawnFromTrans(s4, s3, text);
    DrawnFromTrans(s5, s4, text);
    DrawnFromTrans(s6, s5, text);
    DrawnFromTrans(r, s6, text);
    DrawnFromTrans(s4, s3, s2);
    DrawnFromTrans(s5, s4, s2);
    DrawnFromTrans(r, s6, s5);
    DrawnFromTrans(r, s5, s2);
    DrawnFromTrans(s5, s4, s3);
    DrawnFromTrans(r, s5, s3);
    DrawnFromAvoids(r, s2, '*');
    DrawnFromAvoids(r, s3, '#');
    DrawnFromAvoids(r, s5, '\n');
    StarsKeepVisible(text);
    HeadingsKeepVisible(s2);
    BulletsKeepVisible(s3);
    SpacingKeepsVisible(s4);
    SpacingKeepsVisible(s5);
    SpacingKeepsVisible(s6);
    r
  }

  // The markdown markers the sanitizer may drop.
  const Markers: set<char> := {'*', '#', '-', '•'}

  // Each pass keeps the characters that are neither whitespace nor markers.
  lemma StarsKeepVisible(s: string)
    ensures Visible(RemoveStars(RemoveDoubleStars(s)), Markers) == Visible(s, Markers)
  {
    var r := RemoveStars(RemoveDoubleStars(s));
    WithoutAbsent(r, {'*'});
    VisibleWithout(s, {'*'}, Markers);
  }

  lemma HeadingsKeepVisible(s: string)
    ensures Visible(StripHeadings(s), Markers) == Visible(s, Markers)
  {
    VisibleCoarser(StripHeadings(s), s, {'#'}, Markers);
  }

  lemma BulletsKeepVisible(s: string)
    ensures Visible(StripBullets(s), Markers) == Visible(s, Markers)
  {
    VisibleCoarser(StripBullets(s), s, {'-', '•'}, Markers);
  }

  lemma SpacingKeepsVisible(s: string)
    ensures Visible(CollapseNewlines(s), Markers) == Visible(s, Markers)
    ensures Visible(CollapseSpaces(s), Markers) == Visible(s, Markers)
    ensures Visible(Trim(s), Markers) == Visible(s, Markers)
  {
    VisibleCoarser(CollapseNewlines(s), s, {}, Markers);
    VisibleCoarser(CollapseSpaces(s), s, {}, Markers);
    TrimKeepsVisible(s);
    VisibleCoarser(Trim(s), s, {}, Markers);
  }

  // The two asterisk passes together remove exactly the asterisks: the
  // first pass (pairs) changes nothing the second could not do alone.
  lemma {:induction false} StarPassesRemoveEveryStar(s: string)
    ensures RemoveStars(RemoveDoubleStars(s)) == RemoveStars(s)
    decreases |s|
  {
    if s == [] {
    } else if |s| >= 2 && s[0] == '*' && s[1] == '*' {
      StarPassesRemoveEveryStar(s[2..]);
      assert s[1..][1..] == s[2..];
    } else {
      StarPassesRemoveEveryStar(s[1..]);
      assert RemoveDoubleStars(s) == [s[0]] + RemoveDoubleStars(s[1..]);
      assert ([s[0]] + RemoveDoubleStars(s[1..]))[1..] == RemoveDoubleStars(s[1..]);
    }
  }

  // Text without asterisks, `#` and bullets opening a line only has its
  // line breaks and whitespace runs collapsed and its ends trimmed, and it
  // keeps its words.
  lemma PlainTextPassesThrough(s: string)
    requires forall i :: 0 <= i < |s| ==> s[i] != '*' && s[i] != '#'
    requires NoBulletOpensLine(s)
    ensures SanitizeForSpeech(Some(s)) == Trim(CollapseSpaces(CollapseNewlines(s)))
    ensures '\n' !in s ==> SanitizeForSpeech(Some(s)) == Trim(CollapseSpaces(s))
    ensures Words(SanitizeForSpeech(Some(s))) == Words(s)
  {
    NoStarUnchanged(s);
    NoHashUnchanged(s);
    NoBulletUnchanged(s);
    assert OrEmpty(Some(s)) == s;
    assert StripBullets(StripHeadings(RemoveStars(RemoveDoubleStars(s)))) == s;
    if '\n' !in s {
      NoLineFeedUnchanged(s);
    }
    var c := CollapseNewlines(s);
    CollapseNewlinesKeepsWords(s);
    CollapseSpacesKeepsWords(c);
    TrimKeepsWords(CollapseSpaces(c));
  }

  lemma {:induction false} NoStarUnchanged(s: string)
    requires forall i :: 0 <= i < |s| ==> s[i] != '*'
    ensures RemoveDoubleStars(s) == s && RemoveStars(s) == s
    decreases |s|
  {
    if s != [] { NoStarUnchanged(s[1..]); }
  }

  lemma {:induction false} NoHashUnchanged(s: string)
    requires forall i :: 0 <= i < |s| ==> s[i] != '#'
    ensures StripHeadings(s) == s
    decreases |s|
  {
    if s != [] { NoHashUnchanged(s[1..]); }
  }

  // Text before the first `#` is copied as it stands.
  lemma {:induction false} HeadingsCopies(x: string, y: string)
    requires '#' !in x
    ensures StripHeadings(x + y) == x + StripHeadings(y)
    decreases |x|
  {
    if x != [] {
      assert '#' !in x[1..] by {
        assert forall i :: 0 <= i < |x| - 1 ==> x[1..][i] == x[i + 1];
      }
      HeadingsCopies(x[1..], y);
      HeadingsCopiesStep(x[0], x[1..] + y);
      ConsSplit(x, y);
      ConsSplit(x, StripHeadings(y));
    } else {
      assert x + y == y;
    }
  }

  lemma HeadingsCopiesStep(c: char, t: string)
    requires c != '#'
    ensures StripHeadings([c] + t) == [c] + StripHeadings(t)
  {
    assert ([c] + t)[0] == c && ([c] + t)[1..] == t;
  }

  /** One match of `#{1,6}\s*`: a run `h` of one to six `#` with the
      whitespace `ws` after it is removed, and the scan goes on at `t`.
      The run is the whole match: `t` starts with no whitespace, and with
      no `#` unless the run already has six or whitespace ended it. */
  lemma HeadingRemoved(s: string, h: string, ws: string, t: string)
    requires s == h + (ws + t)
    requires 1 <= |h| <= 6 && forall i :: 0 <= i < |h| ==> h[i] == '#'
    requires AllSpace(ws) && (t == [] || !IsSpace(t[0]))
    requires ws != [] || |h| == 6 || t == [] || t[0] != '#'
    ensures StripHeadings(s) == StripHeadings(t)
  {
    assert |h| == 6 || ws + t == [] || (ws + t)[0] != '#' by {
      if ws != [] {
        assert (ws + t)[0] == ws[0] && IsSpace(ws[0]);
      } else {
        assert ws + t == t;
      }
    }
    HashRunOf(h, ws + t, 6);
    assert s[|h|..] == ws + t;
    TrimStartSkips(ws, t);
    assert s[0] == h[0];
    HeadingAt(s, |h|, t);
  }

  lemma {:induction false} HashRunOf(h: string, u: string, max: nat)
    requires |h| <= max && forall i :: 0 <= i < |h| ==> h[i] == '#'
    requires |h| == max || u == [] || u[0] != '#'
    ensures HashRun(h + u, max) == |h|
    decreases |h|
  {
    if h == [] {
      assert h + u == u;
    } else {
      var s := h + u;
      assert s[0] == '#' && s[1..] == h[1..] + u;
      assert forall i :: 0 <= i < |h| - 1 ==> h[1..][i] == h[i + 1];
      HashRunOf(h[1..], u, max - 1);
    }
  }

  lemma HeadingAt(s: string, n: nat, t: string)
    requires s != [] && s[0] == '#'
    requires HashRun(s, 6) == n && TrimStart(s[n..]) == t
    ensures StripHeadings(s) == StripHeadings(t)
  {
  }

  // No bullet opens the text, and none opens a line after a line feed.
  predicate NoBulletOpensLine(s: string) {
    && BulletMatch(s).None?
    && forall i :: 0 <= i < |s| && s[i] == '\n' ==> BulletMatch(s[i + 1..]).None?
  }

  lemma {:induction false} NoBulletLinesUnchanged(s: string)
    requires forall i :: 0 <= i < |s| && s[i] == '\n' ==> BulletMatch(s[i + 1..]).None?
    ensures BulletLines(s) == s
    decreases |s|
  {
    if s != [] {
      assert forall i :: 0 <= i < |s| - 1 ==> s[1..][i] == s[i + 1] && s[1..][i + 1..] == s[i + 2..];
      NoBulletLinesUnchanged(s[1..]);
    }
  }

  // A bullet character that opens neither the text nor a line stays.
  lemma NoBulletUnchanged(s: string)
    requires NoBulletOpensLine(s)
    ensures StripBullets(s) == s
  {
    NoBulletLinesUnchanged(s);
  }

  lemma {:induction false} NoLineFeedUnchanged(s: string)
    requires forall i :: 0 <= i < |s| ==> s[i] != '\n'
    ensures CollapseNewlines(s) == s
    decreases |s|
  {
    if s != [] { NoLineFeedUnchanged(s[1..]); }
  }
  // ---------------------------------------------------------------------
  // Where line breaks, whitespace runs and bullets go
  // ---------------------------------------------------------------------

  // Collapsing whitespace runs keeps the words, and whether the text starts
  // with one.
  lemma {:induction false} CollapseSpacesKeepsWords(s: string)
    ensures Words(CollapseSpaces(s)) == Words(s)
    ensures StartsWord(CollapseSpaces(s)) == StartsWord(s)
    decreases |s|
  {
    if s != [] {
      if |s| >= 2 && IsSpace(s[0]) && IsSpace(s[1]) {
        var u := TrimStart(s);
        assert |u| < |s|;
        CollapseSpacesKeepsWords(u);
        WordsSpacePrefix(s, |s| - |u|);
        var rest := CollapseSpaces(u);
        assert CollapseSpaces(s) == " " + rest;
        assert (" " + rest)[1..] == rest;
      } else {
        var rest := CollapseSpaces(s[1..]);
        CollapseSpacesKeepsWords(s[1..]);
        assert CollapseSpaces(s) == [s[0]] + rest;
        WordsCons(s[0], rest, s[1..]);
        assert s == [s[0]] + s[1..];
      }
    }
  }

  // A run of two or more whitespace characters becomes one space.
  lemma SpaceRunCollapsed(ws: string, u: string)
    requires |ws| >= 2 && AllSpace(ws) && (u == [] || !IsSpace(u[0]))
    ensures CollapseSpaces(ws + u) == " " + CollapseSpaces(u)
  {
    TrimStartSkips(ws, u);
    assert (ws + u)[0] == ws[0] && (ws + u)[1] == ws[1];
  }

  // Up to the first whitespace character the text is copied.
  lemma {:induction false} SpaceCopies(x: string, y: string)
    requires forall i :: 0 <= i < |x| ==> !IsSpace(x[i])
    ensures CollapseSpaces(x + y) == x + CollapseSpaces(y)
    decreases |x|
  {
    if x != [] {
      assert forall i :: 0 <= i < |x| - 1 ==> x[1..][i] == x[i + 1];
      SpaceCopies(x[1..], y);
      SpaceCopiesStep(x[0], x[1..] + y);
      ConsSplit(x, y);
      ConsSplit(x, CollapseSpaces(y));
    } else {
      assert x + y == y;
    }
  }

  lemma ConsSplit(x: string, y: string)
    requires x != []
    ensures x + y == [x[0]] + (x[1..] + y)
  {
  }

  lemma SpaceCopiesStep(c: char, t: string)
    requires !IsSpace(c)
    ensures CollapseSpaces([c] + t) == [c] + CollapseSpaces(t)
  {
    assert ([c] + t)[0] == c && ([c] + t)[1..] == t;
  }

  // Text without two adjacent whitespace characters is left as it is.
  lemma {:induction false} CollapseSpacesIdle(s: string)
    requires NoDoubleSpace(s)
    ensures CollapseSpaces(s) == s
    decreases |s|
  {
    if s != [] {
      if |s| >= 2 {
        assert !(IsSpace(s[1 - 1]) && IsSpace(s[1]));
      }
      SliceKeeps(s, 1, |s|);
      CollapseSpacesIdle(s[1..]);
      assert s == [s[0]] + s[1..];
    }
  }

  // Dropping leading line feeds keeps the words.
  lemma DropLineFeedsKeepsWords(s: string)
    ensures Words(DropLineFeeds(s)) == Words(s)
  {
    var n := |s| - |DropLineFeeds(s)|;
    assert forall i :: 0 <= i < n ==> s[..n][i] == s[i];
    WordsSpacePrefix(s, n);
  }

  // Collapsing line breaks keeps the words, and whether the text starts
  // with one.
  lemma {:induction false} CollapseNewlinesKeepsWords(s: string)
    ensures Words(CollapseNewlines(s)) == Words(s)
    ensures StartsWord(CollapseNewlines(s)) == StartsWord(s)
    decreases |s|
  {
    if s != [] {
      if s[0] == '\r' && |s| > 1 && s[1] == '\n' {
        var d := DropLineFeeds(s[1..]);
        CollapseNewlinesKeepsWords(d);
        DropLineFeedsKeepsWords(s[1..]);
        var rest := CollapseNewlines(d);
        assert CollapseNewlines(s) == " " + rest;
        assert (" " + rest)[1..] == rest;
      } else if s[0] == '\n' {
        var d := DropLineFeeds(s);
        CollapseNewlinesKeepsWords(d);
        DropLineFeedsKeepsWords(s);
        var rest := CollapseNewlines(d);
        assert CollapseNewlines(s) == " " + rest;
        assert (" " + rest)[1..] == rest;
      } else {
        var rest := CollapseNewlines(s[1..]);
        CollapseNewlinesKeepsWords(s[1..]);
        assert CollapseNewlines(s) == [s[0]] + rest;
        WordsCons(s[0], rest, s[1..]);
        assert s == [s[0]] + s[1..];
      }
    }
  }

  // Up to the first line break the text is copied.
  lemma {:induction false} NewlineCopies(x: string, y: string)
    requires '\n' !in x
    requires x == [] || x[|x| - 1] != '\r' || y == [] || y[0] != '\n'
    ensures CollapseNewlines(x + y) == x + CollapseNewlines(y)
    decreases |x|
  {
    if x != [] {
      var s := x + y;
      assert s[0] == x[0] && s[1..] == x[1..] + y;
      assert |x| > 1 ==> s[1] == x[1];
      NewlineCopies(x[1..], y);
      assert x == [x[0]] + x[1..];
    } else {
      assert x + y == y;
    }
  }

  // The first line break, with the line feeds that follow it, becomes one
  // space.
  lemma LineBreakCollapsed(x: string, y: string)
    requires '\n' !in x && (x == [] || x[|x| - 1] != '\r')
    ensures CollapseNewlines(x + "\n" + y) == x + " " + CollapseNewlines(DropLineFeeds(y))
  {
    NewlineCopies(x, "\n" + y);
    CollapseAtBreak(y);
    Assoc3(x, "\n", y);
    Assoc3(x, " ", CollapseNewlines(DropLineFeeds(y)));
  }

  // A carriage return just before the first line break goes with it.
  lemma CrLineBreakCollapsed(x: string, y: string)
    requires '\n' !in x
    ensures CollapseNewlines(x + "\r\n" + y) == x + " " + CollapseNewlines(DropLineFeeds(y))
  {
    NewlineCopies(x, "\r\n" + y);
    CollapseAtCrBreak(y);
    Assoc3(x, "\r\n", y);
    Assoc3(x, " ", CollapseNewlines(DropLineFeeds(y)));
  }

  lemma CollapseAtBreak(y: string)
    ensures CollapseNewlines("\n" + y) == " " + CollapseNewlines(DropLineFeeds(y))
  {
    assert ("\n" + y)[1..] == y;
  }

  lemma CollapseAtCrBreak(y: string)
    ensures CollapseNewlines("\r\n" + y) == " " + CollapseNewlines(DropLineFeeds(y))
  {
    var s := "\r\n" + y;
    assert s[0] == '\r' && |s| > 1 && s[1] == '\n';
    assert s[1..] == "\n" + y;
    assert DropLineFeeds(s[1..]) == DropLineFeeds(y) by { assert ("\n" + y)[1..] == y; }
  }

  // Whitespace is skipped up to the first character that is not.
  lemma {:induction false} TrimStartSkips(ws: string, u: string)
    requires AllSpace(ws) && (u == [] || !IsSpace(u[0]))
    ensures TrimStart(ws + u) == u
    decreases |ws|
  {
    if ws == [] {
      assert ws + u == u;
    } else {
      assert (ws + u)[0] == ws[0] && (ws + u)[1..] == ws[1..] + u;
      assert AllSpace(ws[1..]) by {
        forall i | 0 <= i < |ws| - 1 ensures IsSpace(ws[1..][i]) { assert ws[1..][i] == ws[i + 1]; }
      }
      TrimStartSkips(ws[1..], u);
    }
  }

  // `\s*[-•]\s*` matches whitespace, one bullet and the whitespace after it.
  lemma BulletPrefix(s: string, ws: string, b: char, ws2: string, t: string)
    requires s == ws + ([b] + (ws2 + t))
    requires AllSpace(ws) && IsBullet(b) && AllSpace(ws2) && (t == [] || !IsSpace(t[0]))
    ensures BulletOpens(s, |ws| + 1 + |ws2|, t)
  {
    AfterPrefix(ws, b, ws2, t);
    BulletPrefixMatch(ws, b, ws2, t);
  }

  // `u` opens with a bullet match of length `n`, and `t` follows it.
  predicate BulletOpens(u: string, n: nat, t: string) {
    BulletMatch(u).Some? && BulletMatch(u).value == n && n <= |u| && u[n..] == t
  }

  lemma BulletPrefixMatch(ws: string, b: char, ws2: string, t: string)
    requires AllSpace(ws) && IsBullet(b) && AllSpace(ws2) && (t == [] || !IsSpace(t[0]))
    ensures BulletMatch(ws + ([b] + (ws2 + t))).Some?
    ensures BulletMatch(ws + ([b] + (ws2 + t))).value == |ws| + 1 + |ws2|
  {
    var a := [b] + (ws2 + t);
    BulletOpening(ws, a);
    assert a[1..] == ws2 + t;
    TrimStartSkips(ws2, t);
    BulletMatchOf(ws + a, a, t, |ws| + 1 + |ws2|);
  }

  // The text after `ws`, one character and `ws2` is `t`.
  lemma AfterPrefix(ws: string, b: char, ws2: string, t: string)
    ensures (ws + ([b] + (ws2 + t)))[|ws| + 1 + |ws2|..] == t
  {
  }

  lemma BulletOpening(ws: string, a: string)
    requires AllSpace(ws) && a != [] && IsBullet(a[0])
    ensures TrimStart(ws + a) == a
  {
    TrimStartSkips(ws, a);
  }

  lemma BulletMatchOf(s: string, a: string, t: string, n: nat)
    requires TrimStart(s) == a && a != [] && IsBullet(a[0]) && TrimStart(a[1..]) == t
    requires |s| == n + |t|
    ensures BulletMatch(s).Some? && BulletMatch(s).value == n
  {
  }

  // A bullet opening the text is removed with the whitespace around it.
  lemma StripBulletsOpening(u: string, n: nat, t: string)
    requires BulletOpens(u, n, t)
    ensures StripBullets(u) == BulletLines(t)
  {
  }

  // Up to the first line feed the per-line scan copies the text.
  lemma {:induction false} BulletLinesCopies(x: string, y: string)
    requires '\n' !in x
    ensures BulletLines(x + y) == x + BulletLines(y)
    decreases |x|
  {
    if x != [] {
      var s := x + y;
      assert s[0] == x[0] && s[1..] == x[1..] + y;
      BulletLinesCopies(x[1..], y);
      assert x == [x[0]] + x[1..];
    } else {
      assert x + y == y;
    }
  }

  // After the first line feed, a bullet opening the line is removed with
  // the whitespace around it and the line feed is kept; a line that does
  // not open with a bullet is scanned on.
  lemma BulletLinesAtLine(x: string, t: string)
    requires '\n' !in x
    ensures BulletLines(x + "\n" + t)
      == x + "\n" + BulletLines(if BulletMatch(t).Some? then t[BulletMatch(t).value..] else t)
  {
    var r := BulletLines(if BulletMatch(t).Some? then t[BulletMatch(t).value..] else t);
    BulletLinesCopies(x, "\n" + t);
    BulletLinesAtBreak(t);
    Assoc3(x, "\n", t);
    Assoc3(x, "\n", r);
  }

  lemma Assoc3(a: string, b: string, c: string)
    ensures a + b + c == a + (b + c)
  {
  }

  // The step of the scan at a line feed.
  lemma BulletLinesAtBreak(t: string)
    ensures BulletLines("\n" + t)
      == "\n" + BulletLines(if BulletMatch(t).Some? then t[BulletMatch(t).value..] else t)
  {
    var s := "\n" + t;
    assert s[1..] == t;
    if BulletMatch(t).Some? {
      var k := BulletMatch(t).value;
      assert s[1 + k..] == t[k..];
    }
  }

  // A bullet opening the line after the first line feed is removed with the
  // whitespace around it; the line feed is kept.
  lemma BulletLineRemoved(x: string, u: string, t: string, n: nat)
    requires '\n' !in x && BulletOpens(u, n, t)
    ensures BulletLines(x + "\n" + u) == x + "\n" + BulletLines(t)
  {
    BulletLinesAtLine(x, u);
  }
}
