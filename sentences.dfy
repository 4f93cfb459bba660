/** splitIntoSentences: trims the text and splits it after a sentence mark
    that is followed by whitespace, the split `t.split(/(?<=[.!?؟])\s+/)`
    followed by `.map(s => s.trim()).filter(Boolean)`. */
module Sentences {
  import opened Wrappers
  import opened Chars

  /** The lookbehind class `[.!?؟]`. */
  predicate IsTerminator(c: char) {
    c == '.' || c == '!' || c == '?' || c == '؟'
  }

  /** The separator `(?<=[.!?؟])\s+` can start at index `i` of `t`. */
  predicate SplitsAt(t: string, i: int) {
    0 < i < |t| && IsTerminator(t[i - 1]) && IsSpace(t[i])
  }

  /** No separator can start inside `s`. */
  predicate NoInnerSplit(s: string) {
    forall m :: 0 < m < |s| ==> !SplitsAt(s, m)
  }

  /** The end of the whitespace run that starts at index `i`. */
  function SkipSpaces(t: string, i: nat): (j: nat)
    requires i <= |t|
    ensures i <= j <= |t|
    ensures forall m :: i <= m < j ==> IsSpace(t[m])
    ensures j < |t| ==> !IsSpace(t[j])
    decreases |t| - i
  {
    if i < |t| && IsSpace(t[i]) then SkipSpaces(t, i + 1) else i
  }

  /** `String.prototype.split` with that separator: the current piece is
      `t[start..i]`; at a separator the piece is closed and the whole
      whitespace run after the mark (the greedy `\s+`) is skipped. */
  function SplitFrom(t: string, start: nat, i: nat): (parts: seq<string>)
    requires start <= i <= |t|
    ensures |parts| > 0
    decreases |t| - i
  {
    if i == |t| then [t[start..]]
    else if SplitsAt(t, i) then
      var j := SkipSpaces(t, i);
      [t[start..i]] + SplitFrom(t, j, j)
    else SplitFrom(t, start, i + 1)
  }

  /** `.map(s => s.trim()).filter(Boolean)`. */
  function TrimAndDropEmpty(parts: seq<string>): (r: seq<string>)
    ensures forall k :: 0 <= k < |r| ==> r[k] != [] && Trimmed(r[k])
    ensures |r| <= |parts|
  {
    if parts == [] then []
    else
      var s := Trim(parts[0]);
      (if s == [] then [] else [s]) + TrimAndDropEmpty(parts[1..])
  }

  /** splitIntoSentences(text). Undefined or whitespace-only text gives no
      sentence; every sentence is non-empty and trimmed. */
  function SplitIntoSentences(text: Option<string>): (parts: seq<string>)
    ensures AllSpace(OrEmpty(text)) ==> parts == []
    ensures forall k :: 0 <= k < |parts| ==> parts[k] != [] && Trimmed(parts[k])
  {
    var t := Trim(OrEmpty(text));
    AllSpaceTrimsToEmpty(OrEmpty(text));
    if t == [] then [] else TrimAndDropEmpty(SplitFrom(t, 0, 0))
  }

  lemma AllSpaceTrimsToEmpty(s: string)
    ensures AllSpace(s) ==> Trim(s) == []
  {
    var a := TrimStart(s);
    assert a == [] || a[0] == s[|s| - |a|];
  }

  /** `parts` joined with the separators `seps` in between gives `t`; each
      separator is a non-empty whitespace run. */
  predicate Rebuilds(parts: seq<string>, seps: seq<string>, t: string) {
    && |parts| == |seps| + 1
    && (forall k :: 0 <= k < |seps| ==> seps[k] != [] && AllSpace(seps[k]))
    && Interleave(parts, seps) == t
  }

  function Interleave(parts: seq<string>, seps: seq<string>): string
    requires |parts| == |seps| + 1
    decreases |seps|
  {
    if seps == [] then parts[0] else parts[0] + seps[0] + Interleave(parts[1..], seps[1..])
  }

  /** A separator inside a slice of `t` is a separator of `t`. */
  lemma SplitsInSlice(t: string, a: nat, b: nat)
    requires a <= b <= |t|
    ensures forall m :: 0 < m < b - a ==> (SplitsAt(t[a..b], m) <==> SplitsAt(t, a + m))
  {
  }

  /** A slice between two non-spaces with no separator inside it is a
      non-empty, trimmed piece free of separators. */
  lemma PieceShape(t: string, a: nat, b: nat)
    requires a < b <= |t|
    requires !IsSpace(t[a]) && !IsSpace(t[b - 1])
    requires forall m :: a < m < b ==> !SplitsAt(t, m)
    ensures t[a..b] != [] && Trimmed(t[a..b]) && NoInnerSplit(t[a..b])
  {
    SplitsInSlice(t, a, b);
  }

  /** Every piece is non-empty, trimmed and free of separators, and each but
      the last ends in a sentence mark. */
  predicate WellSplit(parts: seq<string>) {
    && (forall k :: 0 <= k < |parts| ==> parts[k] != [] && Trimmed(parts[k]) && NoInnerSplit(parts[k]))
    && (forall k :: 0 <= k < |parts| - 1 ==> IsTerminator(parts[k][|parts[k]| - 1]))
  }

  /** The pieces the split produces from a trimmed text, starting from a
      piece that begins with a non-space and has no separator inside it so
      far: each is non-empty, trimmed and free of separators, and each but the
      last ends in a sentence mark. */
  lemma {:induction false} SplitFromPieces(t: string, start: nat, i: nat)
    requires start <= i <= |t| && start < |t|
    requires Trimmed(t) && !IsSpace(t[start])
    requires start == 0 || IsSpace(t[start - 1])
    requires forall m :: start < m < i ==> !SplitsAt(t, m)
    ensures WellSplit(SplitFrom(t, start, i))
    decreases |t| - i
  {
    var parts := SplitFrom(t, start, i);
    if i == |t| {
      PieceShape(t, start, |t|);
      assert t[start..] == t[start..|t|];
    } else if SplitsAt(t, i) {
      var j := SkipSpaces(t, i);
      assert i < j && IsSpace(t[j - 1]);
      PieceShape(t, start, i);
      var p := t[start..i];
      SplitFromPieces(t, j, j);
      var rest := SplitFrom(t, j, j);
      assert parts == [p] + rest;
      forall k | 0 <= k < |parts|
        ensures parts[k] != [] && Trimmed(parts[k]) && NoInnerSplit(parts[k])
        ensures k < |parts| - 1 ==> IsTerminator(parts[k][|parts[k]| - 1])
      {
        if k == 0 {
          assert parts[0] == p && p[|p| - 1] == t[i - 1];
          assert p != [] && Trimmed(p) && NoInnerSplit(p);
          assert IsTerminator(p[|p| - 1]);
        } else {
          assert parts[k] == rest[k - 1];
          assert rest[k - 1] != [] && Trimmed(rest[k - 1]) && NoInnerSplit(rest[k - 1]);
        }
      }
    } else {
      SplitFromPieces(t, start, i + 1);
      assert parts == SplitFrom(t, start, i + 1);
    }
  }

  /** The pieces joined with the whitespace runs the split consumed give back
      the text from `start` on. */
  lemma {:induction false} SplitFromRebuilds(t: string, start: nat, i: nat)
    requires start <= i <= |t|
    ensures exists seps :: Rebuilds(SplitFrom(t, start, i), seps, t[start..])
    decreases |t| - i
  {
    var parts := SplitFrom(t, start, i);
    if i == |t| {
      assert Rebuilds(parts, [], t[start..]);
    } else if SplitsAt(t, i) {
      var j := SkipSpaces(t, i);
      var p := t[start..i];
      var sep := t[i..j];
      assert AllSpace(sep) by {
        forall m | 0 <= m < |sep| ensures IsSpace(sep[m]) { assert sep[m] == t[i + m]; }
      }
      SplitFromRebuilds(t, j, j);
      var rest := SplitFrom(t, j, j);
      var seps :| Rebuilds(rest, seps, t[j..]);
      assert parts == [p] + rest;
      var all := [sep] + seps;
      assert all[1..] == seps && all[0] == sep;
      assert parts[1..] == rest && parts[0] == p;
      assert Interleave(parts, all) == p + sep + Interleave(rest, seps);
      assert t[start..] == p + sep + t[j..];
      forall k | 0 <= k < |all| ensures all[k] != [] && AllSpace(all[k]) {
        if k > 0 { assert all[k] == seps[k - 1]; }
      }
      assert Rebuilds(parts, all, t[start..]);
    } else {
      SplitFromRebuilds(t, start, i + 1);
    }
  }

  lemma ConsTail<T>(s: seq<T>)
    requires s != []
    ensures [s[0]] + s[1..] == s
  {
  }

  lemma {:induction false} TrimmedUnchangedAll(parts: seq<string>)
    requires forall k :: 0 <= k < |parts| ==> parts[k] != [] && Trimmed(parts[k])
    ensures TrimAndDropEmpty(parts) == parts
    decreases |parts|
  {
    if parts != [] {
      var tail := parts[1..];
      forall k | 0 <= k < |tail| ensures tail[k] != [] && Trimmed(tail[k]) {
        assert tail[k] == parts[k + 1];
      }
      TrimmedUnchangedAll(tail);
      TrimmedUnchanged(parts[0]);
      assert TrimAndDropEmpty(parts) == [parts[0]] + tail;
      ConsTail(parts);
    }
  }

  /** The segmentation contract. With `t` the trimmed text: no sentence exactly
      when `t` is empty; every sentence but the last ends in a sentence mark;
      no sentence holds a mark followed by whitespace, so each split point was
      used; and the sentences joined with the whitespace runs the split
      consumed give back `t`. */
  lemma SentencesRebuildText(text: Option<string>)
    ensures var t := Trim(OrEmpty(text));
      var parts := SplitIntoSentences(text);
      && (parts == [] <==> t == [])
      && (forall k :: 0 <= k < |parts| - 1 ==> IsTerminator(parts[k][|parts[k]| - 1]))
      && (forall k :: 0 <= k < |parts| ==> NoInnerSplit(parts[k]))
      && (t != [] ==> exists seps :: Rebuilds(parts, seps, t))
  {
    var t := Trim(OrEmpty(text));
    if t != [] {
      SplitFromPieces(t, 0, 0);
      SplitFromRebuilds(t, 0, 0);
      TrimmedUnchangedAll(SplitFrom(t, 0, 0));
      assert t[0..] == t;
    }
  }

  /** Whitespace holds no Arabic letter. */
  lemma SpaceNotArabic(s: string)
    requires AllSpace(s)
    ensures !IsArabicText(s)
  {
  }

  lemma {:induction false} TrimStartKeepsArabic(s: string)
    ensures IsArabicText(TrimStart(s)) == IsArabicText(s)
    decreases |s|
  {
    if s != [] && IsSpace(s[0]) {
      TrimStartKeepsArabic(s[1..]);
    }
  }

  lemma {:induction false} TrimEndKeepsArabic(s: string)
    ensures IsArabicText(TrimEnd(s)) == IsArabicText(s)
    decreases |s|
  {
    if s != [] && IsSpace(s[|s| - 1]) {
      var init := s[..|s| - 1];
      TrimEndKeepsArabic(init);
      assert s == init + [s[|s| - 1]];
      ArabicConcat(init, [s[|s| - 1]]);
    }
  }

  /** Trimming keeps exactly the Arabic letters there were. */
  lemma TrimKeepsArabic(s: string)
    ensures IsArabicText(Trim(s)) == IsArabicText(s)
  {
    TrimStartKeepsArabic(s);
    TrimEndKeepsArabic(TrimStart(s));
  }

  /** Joining pieces with whitespace gives Arabic text exactly when some
      piece is Arabic. */
  lemma {:induction false} InterleaveArabic(parts: seq<string>, seps: seq<string>)
    requires |parts| == |seps| + 1
    requires forall k :: 0 <= k < |seps| ==> AllSpace(seps[k])
    ensures IsArabicText(Interleave(parts, seps)) <==> exists k :: 0 <= k < |parts| && IsArabicText(parts[k])
    decreases |seps|
  {
    if seps != [] {
      var ps, ss := parts[1..], seps[1..];
      forall k | 0 <= k < |ss| ensures AllSpace(ss[k]) { assert ss[k] == seps[k + 1]; }
      InterleaveArabic(ps, ss);
      SpaceNotArabic(seps[0]);
      ArabicConcat(parts[0], seps[0]);
      ArabicConcat(parts[0] + seps[0], Interleave(ps, ss));
      if exists k :: 0 <= k < |ps| && IsArabicText(ps[k]) {
        var k :| 0 <= k < |ps| && IsArabicText(ps[k]);
        assert parts[k + 1] == ps[k];
      }
      if exists k :: 0 <= k < |parts| && IsArabicText(parts[k]) {
        var k :| 0 <= k < |parts| && IsArabicText(parts[k]);
        if k > 0 { assert ps[k - 1] == parts[k]; }
      }
    }
  }

  /** Some piece of `parts` holds an Arabic letter. */
  predicate SomeArabic(parts: seq<string>) {
    exists k :: 0 <= k < |parts| && IsArabicText(parts[k])
  }

  /** Splitting keeps the language: some sentence is Arabic exactly when the
      text is, so speakNext picks the Arabic voice for at least one sentence
      of an Arabic text and for none of a text without Arabic letters. */
  lemma SentencesKeepLanguage(text: string)
    ensures SomeArabic(SplitIntoSentences(Some(text))) <==> IsArabicText(text)
  {
    var t := Trim(text);
    TrimKeepsArabic(text);
    SentencesRebuildText(Some(text));
    var parts := SplitIntoSentences(Some(text));
    if t != [] {
      var seps :| Rebuilds(parts, seps, t);
      InterleaveArabic(parts, seps);
    }
  }
}
