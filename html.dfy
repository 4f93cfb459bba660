/** htmlEncode: the escaping applied to text placed into the chat history and
    into the speech markup. */
module Html {

  /** The six characters the encoder's entity table covers. */
  predicate IsEscaped(c: char) {
    c == '&' || c == '<' || c == '>' || c == '"' || c == '\'' || c == '/'
  }

  /** The entity table: each escaped character's replacement; any other
      character stands for itself. */
  function Entity(c: char): (r: string)
    ensures !IsEscaped(c) ==> r == [c]
    ensures IsEscaped(c) ==> |r| > 1 && r[0] == '&' && r[|r| - 1] == ';'
  {
    match c
    case '&' => "&amp;"
    case '<' => "&lt;"
    case '>' => "&gt;"
    case '"' => "&quot;"
    case '\'' => "&#39;"
    case '/' => "&#x2F;"
    case _ => [c]
  }

  /** No character of `s` is one that would open or close markup. */
  predicate MarkupFree(s: string) {
    forall i :: 0 <= i < |s| ==> s[i] != '<' && s[i] != '>' && s[i] != '"' && s[i] != '\'' && s[i] != '/'
  }

  /** `String(text).replace(/[&<>"'\/]/g, (m) => entityMap[m])`. */
  function HtmlEncode(s: string): (r: string)
    ensures MarkupFree(r)
    ensures |r| >= |s|
    decreases |s|
  {
    if s == [] then [] else Entity(s[0]) + HtmlEncode(s[1..])
  }

  /** Reference inverse: reads each of the six entities back to its character. */
  function HtmlDecode(s: string): string
    decreases |s|
  {
    if s == [] then []
    else if "&amp;" <= s then "&" + HtmlDecode(s[5..])
    else if "&lt;" <= s then "<" + HtmlDecode(s[4..])
    else if "&gt;" <= s then ">" + HtmlDecode(s[4..])
    else if "&quot;" <= s then "\"" + HtmlDecode(s[6..])
    else if "&#39;" <= s then "'" + HtmlDecode(s[5..])
    else if "&#x2F;" <= s then "/" + HtmlDecode(s[6..])
    else [s[0]] + HtmlDecode(s[1..])
  }

  /** Encoding works character by character: the encoding of a concatenation
      is the concatenation of the encodings. */
  lemma {:induction false} EncodeAppend(a: string, b: string)
    ensures HtmlEncode(a + b) == HtmlEncode(a) + HtmlEncode(b)
    decreases |a|
  {
    if a == [] {
      assert a + b == b;
    } else {
      assert (a + b)[0] == a[0];
      assert (a + b)[1..] == a[1..] + b;
      EncodeAppend(a[1..], b);
      calc {
        HtmlEncode(a + b);
        Entity(a[0]) + HtmlEncode(a[1..] + b);
        Entity(a[0]) + (HtmlEncode(a[1..]) + HtmlEncode(b));
        (Entity(a[0]) + HtmlEncode(a[1..])) + HtmlEncode(b);
        HtmlEncode(a) + HtmlEncode(b);
      }
    }
  }

  /** Each character is replaced by its entity: a one-character string encodes
      to that character's table entry (itself, for the characters outside the
      table). */
  lemma EncodeChar(c: char)
    ensures HtmlEncode([c]) == Entity(c)
  {
    assert [c][1..] == [];
  }

  /** Decoding the encoded text gives the text back, so the encoder loses
      nothing and changes no character outside the table. */
  lemma {:induction false} DecodeEncode(s: string)
    ensures HtmlDecode(HtmlEncode(s)) == s
    decreases |s|
  {
    if s != [] {
      var rest := HtmlEncode(s[1..]);
      var e := Entity(s[0]);
      DecodeEncode(s[1..]);
      assert HtmlEncode(s) == e + rest;
      assert (e + rest)[|e|..] == rest;
      var t := e + rest;
      match s[0]
      case '&' => assert "&amp;" <= t;
      case '<' => assert !("&amp;" <= t) && "&lt;" <= t;
      case '>' =>
        assert t[1] == 'g';
        assert !("&amp;" <= t) && !("&lt;" <= t) && "&gt;" <= t;
      case '"' =>
        assert t[1] == 'q';
        assert !("&amp;" <= t) && !("&lt;" <= t) && !("&gt;" <= t) && "&quot;" <= t;
      case '\'' =>
        assert t[1] == '#' && t[2] == '3';
        assert !("&amp;" <= t) && !("&lt;" <= t) && !("&gt;" <= t) && !("&quot;" <= t) && "&#39;" <= t;
      case '/' =>
        assert t[1] == '#' && t[2] == 'x';
        assert !("&amp;" <= t) && !("&lt;" <= t) && !("&gt;" <= t) && !("&quot;" <= t) && !("&#39;" <= t);
        assert "&#x2F;" <= t;
      case _ =>
        assert t[0] == s[0] && t[0] != '&';
        assert t[1..] == rest;
    }
  }
}
