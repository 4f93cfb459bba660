/** Small shared vocabulary: an Option type and the character classes the
    speech pipeline's regular expressions use, written as predicates. */
module Wrappers {
  datatype Option<+T> = None | Some(value: T)
}

module Chars {
  import opened Wrappers

  /** JavaScript's `\s` class, which is also the set `String.prototype.trim`
      strips: the ECMAScript WhiteSpace and LineTerminator code points. */
  predicate IsSpace(c: char) {
    || c == ' ' || c == '\t' || c == '\n' || c == '\U{000B}' || c == '\U{000C}' || c == '\r'
    || c == '\U{00A0}' || c == '\U{1680}' || ('\U{2000}' <= c <= '\U{200A}')
    || c == '\U{2028}' || c == '\U{2029}' || c == '\U{202F}' || c == '\U{205F}'
    || c == '\U{3000}' || c == '\U{FEFF}'
  }

  /** The Arabic block U+0600..U+06FF, the class `[؀-ۿ]`. */
  predicate IsArabicChar(c: char) {
    '\U{0600}' <= c <= '\U{06FF}'
  }

  /** `\d`: an ASCII digit. */
  predicate IsDigit(c: char) {
    '0' <= c <= '9'
  }

  predicate IsAsciiLetter(c: char) {
    ('A' <= c <= 'Z') || ('a' <= c <= 'z')
  }

  /** `\w`, the class behind the ASCII word boundary `\b`. */
  predicate IsWordChar(c: char) {
    IsAsciiLetter(c) || IsDigit(c) || c == '_'
  }

  /** The class `[0-9A-Za-z؀-ۿ]`: characters that may not touch a
      token of the abbreviation table. */
  predicate IsTokenChar(c: char) {
    IsDigit(c) || IsAsciiLetter(c) || IsArabicChar(c)
  }

  /** Every character of `s` is whitespace. */
  predicate AllSpace(s: string) {
    forall i :: 0 <= i < |s| ==> IsSpace(s[i])
  }

  /** `s` does not begin or end with whitespace. */
  predicate Trimmed(s: string) {
    s == [] || (!IsSpace(s[0]) && !IsSpace(s[|s| - 1]))
  }

  /** `s` holds no two adjacent whitespace characters. */
  predicate NoDoubleSpace(s: string) {
    forall i :: 0 < i < |s| ==> !(IsSpace(s[i - 1]) && IsSpace(s[i]))
  }

  /** Every character of `r` already occurs in `s` or is a plain space. */
  predicate DrawnFrom(r: string, s: string) {
    forall c :: c in r ==> c in s || c == ' '
  }

  lemma DrawnFromTrans(a: string, b: string, c: string)
    requires DrawnFrom(a, b) && DrawnFrom(b, c)
    ensures DrawnFrom(a, c)
  {
  }

  /** A character that is neither in the source nor a space cannot appear. */
  lemma DrawnFromAvoids(a: string, b: string, x: char)
    requires DrawnFrom(a, b) && x !in b && x != ' '
    ensures x !in a
  {
  }

  /** A slice keeps the absence of adjacent whitespace and draws on its text. */
  lemma SliceKeeps(s: string, i: nat, j: nat)
    requires i <= j <= |s|
    ensures NoDoubleSpace(s) ==> NoDoubleSpace(s[i..j])
    ensures DrawnFrom(s[i..j], s)
  {
    assert forall k :: 0 <= k < j - i ==> s[i..j][k] == s[i + k];
    forall c | c in s[i..j] ensures c in s {
      var k :| 0 <= k < j - i && s[i..j][k] == c;
      assert s[i + k] == c;
    }
  }

  /** `raw || ""` for a value that may be undefined. */
  function OrEmpty(raw: Option<string>): (s: string)
    ensures raw.Some? ==> s == raw.value
    ensures raw.None? ==> s == []
  {
    match raw
    case None => []
    case Some(s) => s
  }

  /** Drops the leading whitespace run, as the greedy `^\s*` does. */
  function TrimStart(s: string): (r: string)
    ensures |r| <= |s| && r == s[|s| - |r|..]
    ensures AllSpace(s[..|s| - |r|])
    ensures r == [] || !IsSpace(r[0])
    decreases |s|
  {
    if s != [] && IsSpace(s[0]) then TrimStart(s[1..]) else s
  }

  /** Drops the trailing whitespace run. */
  function TrimEnd(s: string): (r: string)
    ensures |r| <= |s| && r == s[..|r|]
    ensures AllSpace(s[|r|..])
    ensures r == [] || !IsSpace(r[|r| - 1])
    decreases |s|
  {
    if s != [] && IsSpace(s[|s| - 1]) then
      var init := s[..|s| - 1];
      var r := TrimEnd(init);
      assert r == s[..|r|];
      assert forall k :: 0 <= k < |s| - |r| ==> s[|r|..][k] == (if k < |init| - |r| then init[|r|..][k] else s[|s| - 1]);
      r
    else s
  }

  /** `r` is `s` after removing whitespace characters one at a time from
      either end, and nothing else. */
  predicate CutFrom(r: string, s: string)
    decreases |s|
  {
    || r == s
    || (s != [] && IsSpace(s[0]) && CutFrom(r, s[1..]))
    || (s != [] && IsSpace(s[|s| - 1]) && CutFrom(r, s[..|s| - 1]))
  }

  /** `String.prototype.trim`: the input with its leading and trailing
      whitespace runs cut off, and nothing else changed. */
  function Trim(s: string): (r: string)
    ensures Trimmed(r)
    ensures CutFrom(r, s)
  {
    var a := TrimStart(s);
    var r := TrimEnd(a);
    assert r == [] || r[0] == a[0];
    TrimEndCuts(a);
    TrimStartCuts(r, s);
    r
  }

  lemma {:induction false} TrimEndCuts(s: string)
    ensures CutFrom(TrimEnd(s), s)
    decreases |s|
  {
    if s != [] && IsSpace(s[|s| - 1]) { TrimEndCuts(s[..|s| - 1]); }
  }

  lemma {:induction false} TrimStartCuts(r: string, s: string)
    requires CutFrom(r, TrimStart(s))
    ensures CutFrom(r, s)
    decreases |s|
  {
    if s != [] && IsSpace(s[0]) { TrimStartCuts(r, s[1..]); }
  }

  /** Trimming keeps the absence of adjacent whitespace and adds no character. */
  lemma TrimKeeps(s: string)
    ensures NoDoubleSpace(s) ==> NoDoubleSpace(Trim(s))
    ensures DrawnFrom(Trim(s), s)
  {
    var a := TrimStart(s);
    var r := TrimEnd(a);
    assert Trim(s) == r;
    TrimKeepsSpacing(s, a, r);
    forall c | c in r ensures c in s {
      var k :| 0 <= k < |r| && r[k] == c;
      assert a[k] == c && s[|s| - |a| + k] == a[k];
    }
  }

  lemma TrimKeepsSpacing(s: string, a: string, r: string)
    requires |a| <= |s| && a == s[|s| - |a|..] && |r| <= |a| && r == a[..|r|]
    ensures NoDoubleSpace(s) ==> NoDoubleSpace(r)
  {
    var i := |s| - |a|;
    assert forall k :: 0 <= k < |r| ==> r[k] == s[i + k];
  }

  /** Trimming removes whitespace only: its visible characters are kept. */
  lemma TrimKeepsVisible(s: string)
    ensures Visible(Trim(s), {}) == Visible(s, {})
  {
    TrimStartKeepsVisible(s, {});
    TrimEndKeepsVisible(TrimStart(s));
  }

  lemma {:induction false} TrimStartKeepsVisible(s: string, marks: set<char>)
    ensures Visible(TrimStart(s), marks) == Visible(s, marks)
    decreases |s|
  {
    if s != [] && IsSpace(s[0]) { TrimStartKeepsVisible(s[1..], marks); }
  }

  lemma {:induction false} TrimEndKeepsVisible(s: string)
    ensures Visible(TrimEnd(s), {}) == Visible(s, {})
    decreases |s|
  {
    if s != [] && IsSpace(s[|s| - 1]) {
      var init := s[..|s| - 1];
      TrimEndKeepsVisible(init);
      assert s == init + [s[|s| - 1]];
      VisibleAppend(init, [s[|s| - 1]], {});
      VisibleCons(s[|s| - 1], [], {});
    }
  }

  /** `s` begins with a character that is not whitespace: a word starts there. */
  predicate StartsWord(s: string) {
    s != [] && !IsSpace(s[0])
  }

  /** The words of `s`: its maximal runs of non-whitespace characters, in
      order. Whitespace only separates them; how long a separating run is and
      which whitespace characters it holds does not matter. */
  function Words(s: string): (ws: seq<string>)
    ensures StartsWord(s) ==> ws != []
    decreases |s|
  {
    if s == [] then []
    else if IsSpace(s[0]) then Words(s[1..])
    else if !StartsWord(s[1..]) then [[s[0]]] + Words(s[1..])
    else
      var ws := Words(s[1..]);
      [[s[0]] + ws[0]] + ws[1..]
  }

  /** Every word is a non-empty run without whitespace. */
  lemma {:induction false} WordsAreRuns(s: string)
    ensures forall k :: 0 <= k < |Words(s)| ==> Words(s)[k] != [] && !HasSpace(Words(s)[k])
    decreases |s|
  {
    if s != [] {
      WordsAreRuns(s[1..]);
      if !IsSpace(s[0]) && StartsWord(s[1..]) {
        var w := Words(s[1..])[0];
        assert !HasSpace(w);
        assert ([s[0]] + w)[1..] == w;
      }
    }
  }

  /** Some character of `s` is whitespace. */
  predicate HasSpace(s: string)
    decreases |s|
  {
    s != [] && (IsSpace(s[0]) || HasSpace(s[1..]))
  }

  /** The words after a first character depend only on the words of the rest
      and on whether the rest starts a word. */
  lemma WordsCons(c: char, a: string, b: string)
    requires Words(a) == Words(b) && StartsWord(a) == StartsWord(b)
    ensures Words([c] + a) == Words([c] + b)
    ensures StartsWord([c] + a) == StartsWord([c] + b)
  {
    assert ([c] + a)[1..] == a;
    assert ([c] + b)[1..] == b;
  }

  /** Leading whitespace separates nothing. */
  lemma {:induction false} WordsSpacePrefix(s: string, n: nat)
    requires n <= |s| && AllSpace(s[..n])
    ensures Words(s) == Words(s[n..])
    decreases n
  {
    if n > 0 {
      assert IsSpace(s[..n][0]);
      assert s[1..][..n - 1] == s[..n][1..];
      WordsSpacePrefix(s[1..], n - 1);
      assert s[1..][n - 1..] == s[n..];
    }
  }

  /** Trailing whitespace separates nothing. */
  lemma {:induction false} WordsSpaceSuffix(s: string, n: nat)
    requires n <= |s| && AllSpace(s[n..])
    ensures Words(s) == Words(s[..n])
    decreases |s|
  {
    if n == 0 {
      assert s[0..] == s;
      WordsSpacePrefix(s, |s|);
      assert s[|s|..] == [];
    } else {
      var a := s[1..];
      var b := s[1..n];
      assert a[n - 1..] == s[n..];
      WordsSpaceSuffix(a, n - 1);
      assert a[..n - 1] == b;
      assert n - 1 == 0 ==> !StartsWord(a) by {
        if n - 1 == 0 && a != [] { assert a[0] == s[n..][0]; }
      }
      WordsCons(s[0], a, b);
      assert s == [s[0]] + a;
      assert s[..n] == [s[0]] + b;
    }
  }

  /** Trimming keeps the words. */
  lemma TrimKeepsWords(s: string)
    ensures Words(Trim(s)) == Words(s)
  {
    var a := TrimStart(s);
    WordsSpacePrefix(s, |s| - |a|);
    var r := TrimEnd(a);
    WordsSpaceSuffix(a, |r|);
    assert Trim(s) == r;
  }

  /** Words meet only across whitespace: when `b` does not start a word, the
      words of `a + b` are those of `a` followed by those of `b`. */
  lemma {:induction false} WordsCat(a: string, b: string)
    requires !StartsWord(b)
    ensures Words(a + b) == Words(a) + Words(b)
    decreases |a|
  {
    if a == [] {
      assert a + b == b;
    } else {
      var c := a[0];
      var rest := a[1..];
      assert (a + b)[0] == c && (a + b)[1..] == rest + b;
      WordsCat(rest, b);
      if !IsSpace(c) {
        if StartsWord(rest + b) {
          assert rest != [] && StartsWord(rest);
          var ws := Words(rest);
          assert (ws + Words(b))[0] == ws[0];
          assert (ws + Words(b))[1..] == ws[1..] + Words(b);
        } else {
          assert !StartsWord(rest) by {
            if rest != [] { assert (rest + b)[0] == rest[0]; }
          }
        }
      }
    }
  }

  /** A non-empty run without whitespace is one word. */
  lemma {:induction false} WordsOfRun(w: string)
    requires w != [] && !HasSpace(w)
    ensures Words(w) == [w]
    decreases |w|
  {
    assert !IsSpace(w[0]) && !HasSpace(w[1..]);
    if |w| > 1 {
      WordsOfRun(w[1..]);
      assert StartsWord(w[1..]);
      assert [w[0]] + w[1..] == w;
      assert [w[1..]][1..] == [];
    } else {
      assert w[1..] == [];
      assert [w[0]] == w;
    }
  }

  /** Two runs joined by one space are two words. */
  lemma WordsOfTwo(a: string, b: string)
    requires a != [] && !HasSpace(a) && b != [] && !HasSpace(b)
    ensures Words(a + " " + b) == [a, b]
  {
    WordsOfRun(a);
    WordsOfRun(b);
    assert a + " " + b == a + (" " + b);
    WordsCat(a, " " + b);
    assert (" " + b)[1..] == b;
  }

  /** `s` without the characters of `marks`, in order. */
  function Without(s: string, marks: set<char>): (r: string)
    ensures |r| <= |s|
    decreases |s|
  {
    if s == [] then []
    else (if s[0] in marks then [] else [s[0]]) + Without(s[1..], marks)
  }

  /** The characters of `s` that are neither whitespace nor in `marks`, in
      order: the text that a pass removing only those characters keeps. */
  function Visible(s: string, marks: set<char>): (r: string)
    ensures |r| <= |s|
    decreases |s|
  {
    if s == [] then []
    else (if IsSpace(s[0]) || s[0] in marks then [] else [s[0]]) + Visible(s[1..], marks)
  }

  lemma WithoutCons(c: char, s: string, marks: set<char>)
    ensures Without([c] + s, marks) == (if c in marks then [] else [c]) + Without(s, marks)
  {
    assert ([c] + s)[1..] == s;
  }

  lemma VisibleCons(c: char, s: string, marks: set<char>)
    ensures Visible([c] + s, marks) == (if IsSpace(c) || c in marks then [] else [c]) + Visible(s, marks)
  {
    assert ([c] + s)[1..] == s;
  }

  lemma {:induction false} VisibleAppend(a: string, b: string, marks: set<char>)
    ensures Visible(a + b, marks) == Visible(a, marks) + Visible(b, marks)
    decreases |a|
  {
    if a != [] {
      VisibleAppend(a[1..], b, marks);
      var h := if IsSpace(a[0]) || a[0] in marks then [] else [a[0]];
      assert (a + b)[0] == a[0];
      assert (a + b)[1..] == a[1..] + b;
      assert Visible(a + b, marks) == h + Visible(a[1..] + b, marks);
      assert Visible(a, marks) == h + Visible(a[1..], marks);
    } else {
      assert a + b == b;
    }
  }

  /** Text made only of whitespace and marks has nothing visible. */
  lemma {:induction false} VisibleNone(s: string, marks: set<char>)
    requires forall i :: 0 <= i < |s| ==> IsSpace(s[i]) || s[i] in marks
    ensures Visible(s, marks) == []
    decreases |s|
  {
    if s != [] { VisibleNone(s[1..], marks); }
  }

  /** Hiding more marks after hiding some is hiding the larger set at once. */
  lemma {:induction false} VisibleRefine(s: string, marks: set<char>, more: set<char>)
    requires marks <= more
    ensures Visible(Visible(s, marks), more) == Visible(s, more)
    decreases |s|
  {
    if s != [] {
      VisibleRefine(s[1..], marks, more);
      var h := if IsSpace(s[0]) || s[0] in marks then [] else [s[0]];
      VisibleAppend(h, Visible(s[1..], marks), more);
    }
  }

  /** Two texts that agree on what is visible beside `marks` agree on what is
      visible beside any larger set. */
  lemma VisibleCoarser(a: string, b: string, marks: set<char>, more: set<char>)
    requires marks <= more
    requires Visible(a, marks) == Visible(b, marks)
    ensures Visible(a, more) == Visible(b, more)
  {
    VisibleRefine(a, marks, more);
    VisibleRefine(b, marks, more);
  }

  /** Removing marks that are hidden anyway leaves the visible text alone. */
  lemma {:induction false} VisibleWithout(s: string, marks: set<char>, more: set<char>)
    requires marks <= more
    ensures Visible(Without(s, marks), more) == Visible(s, more)
    decreases |s|
  {
    if s != [] {
      VisibleWithout(s[1..], marks, more);
      var h := if s[0] in marks then [] else [s[0]];
      VisibleAppend(h, Without(s[1..], marks), more);
    }
  }

  /** Without changes nothing when no mark occurs. */
  lemma {:induction false} WithoutAbsent(s: string, marks: set<char>)
    requires forall i :: 0 <= i < |s| ==> s[i] !in marks
    ensures Without(s, marks) == s
    decreases |s|
  {
    if s != [] { WithoutAbsent(s[1..], marks); }
  }

  /** A trimmed text is left as it is by trim. */
  lemma TrimmedUnchanged(s: string)
    requires Trimmed(s)
    ensures Trim(s) == s
  {
  }

  /** `/[؀-ۿ]/.test(text)` (isArabicText), as a scan. */
  function IsArabicText(s: string): (r: bool)
    ensures r <==> exists i :: 0 <= i < |s| && IsArabicChar(s[i])
    decreases |s|
  {
    if s == [] then false
    else if IsArabicChar(s[0]) then true
    else
      var rest := IsArabicText(s[1..]);
      assert forall i :: 1 <= i < |s| ==> s[i] == s[1..][i - 1];
      rest
  }

  datatype Lang = Ar | Fr

  /** detectLang: the same test as isArabicText, answering a language tag. */
  function DetectLang(s: string): (l: Lang)
    ensures l == Ar <==> exists i :: 0 <= i < |s| && IsArabicChar(s[i])
  {
    if IsArabicText(s) then Ar else Fr
  }

  /** Arabic characters survive concatenation, in both directions. */
  lemma {:induction false} ArabicConcat(a: string, b: string)
    ensures IsArabicText(a + b) <==> IsArabicText(a) || IsArabicText(b)
  {
    if IsArabicText(a) {
      var i :| 0 <= i < |a| && IsArabicChar(a[i]);
      assert (a + b)[i] == a[i];
    }
    if IsArabicText(b) {
      var i :| 0 <= i < |b| && IsArabicChar(b[i]);
      assert (a + b)[|a| + i] == b[i];
    }
    if IsArabicText(a + b) {
      var i :| 0 <= i < |a + b| && IsArabicChar((a + b)[i]);
      if i < |a| { assert a[i] == (a + b)[i]; } else { assert b[i - |a|] == (a + b)[i]; }
    }
  }
}
