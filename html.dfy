/** The `escapeHtml` helper that every client script of the catalog defines
    (public/js/books.js, public/js/notes.js and public/js/courses.js hold the
    same five-step chain of global `String.prototype.replace` calls). */
module Html {

  /** `s.replace(/c/g, rep)`: every occurrence of the character `c` replaced. */
  function ReplaceAll(s: string, c: char, rep: string): string
  {
    if s == [] then []
    else (if s[0] == c then rep else [s[0]]) + ReplaceAll(s[1..], c, rep)
  }

  /** The chain as the source writes it: `&` first, then `<`, `>`, `"` and `'`. */
  function EscapeHtml(s: string): string
  {
    ReplaceAll(ReplaceAll(ReplaceAll(ReplaceAll(ReplaceAll(s,
      '&', "&amp;"), '<', "&lt;"), '>', "&gt;"), '"', "&quot;"), '\'', "&#39;")
  }

  /** The five characters the chain rewrites. */
  predicate IsSpecial(c: char)
  {
    c == '&' || c == '<' || c == '>' || c == '"' || c == '\''
  }

  /** Reference definition: each character escaped on its own, in one pass. */
  function EscapeChar(c: char): string
  {
    match c
    case '&' => "&amp;"
    case '<' => "&lt;"
    case '>' => "&gt;"
    case '"' => "&quot;"
    case '\'' => "&#39;"
    case _ => [c]
  }

  function EscapeEach(s: string): string
  {
    if s == [] then [] else EscapeChar(s[0]) + EscapeEach(s[1..])
  }

  /** `t` begins with one of the five entities the chain produces. */
  predicate StartsWithEntity(t: string)
  {
    || (|t| >= 5 && t[..5] == "&amp;")
    || (|t| >= 4 && t[..4] == "&lt;")
    || (|t| >= 4 && t[..4] == "&gt;")
    || (|t| >= 6 && t[..6] == "&quot;")
    || (|t| >= 5 && t[..5] == "&#39;")
  }

  /** Safe to interpolate into markup, attribute values included: no raw
      `<`, `>`, `"` or `'`, and every `&` opens one of the five entities. */
  predicate HtmlSafe(t: string)
  {
    && (forall i :: 0 <= i < |t| ==> t[i] != '<' && t[i] != '>' && t[i] != '"' && t[i] != '\'')
    && (forall i :: 0 <= i < |t| && t[i] == '&' ==> StartsWithEntity(t[i..]))
  }

  /** Reads the five entities back; any other character stands for itself. */
  function Unescape(t: string): string
  {
    if t == [] then []
    else if |t| >= 5 && t[..5] == "&amp;" then "&" + Unescape(t[5..])
    else if |t| >= 4 && t[..4] == "&lt;" then "<" + Unescape(t[4..])
    else if |t| >= 4 && t[..4] == "&gt;" then ">" + Unescape(t[4..])
    else if |t| >= 6 && t[..6] == "&quot;" then "\"" + Unescape(t[6..])
    else if |t| >= 5 && t[..5] == "&#39;" then "'" + Unescape(t[5..])
    else [t[0]] + Unescape(t[1..])
  }

  lemma {:induction false} ReplaceAllAppend(a: string, b: string, c: char, rep: string)
    ensures ReplaceAll(a + b, c, rep) == ReplaceAll(a, c, rep) + ReplaceAll(b, c, rep)
  {
    if a == [] {
      assert a + b == b;
    } else {
      assert (a + b)[1..] == a[1..] + b;
      ReplaceAllAppend(a[1..], b, c, rep);
    }
  }

  lemma {:induction false} ReplaceAllAbsent(s: string, c: char, rep: string)
    requires forall i :: 0 <= i < |s| ==> s[i] != c
    ensures ReplaceAll(s, c, rep) == s
  {
    if s != [] {
      ReplaceAllAbsent(s[1..], c, rep);
    }
  }

  lemma EscapeHtmlAppend(a: string, b: string)
    ensures EscapeHtml(a + b) == EscapeHtml(a) + EscapeHtml(b)
  {
    var a1, b1 := ReplaceAll(a, '&', "&amp;"), ReplaceAll(b, '&', "&amp;");
    ReplaceAllAppend(a, b, '&', "&amp;");
    var a2, b2 := ReplaceAll(a1, '<', "&lt;"), ReplaceAll(b1, '<', "&lt;");
    ReplaceAllAppend(a1, b1, '<', "&lt;");
    var a3, b3 := ReplaceAll(a2, '>', "&gt;"), ReplaceAll(b2, '>', "&gt;");
    ReplaceAllAppend(a2, b2, '>', "&gt;");
    var a4, b4 := ReplaceAll(a3, '"', "&quot;"), ReplaceAll(b3, '"', "&quot;");
    ReplaceAllAppend(a3, b3, '"', "&quot;");
    ReplaceAllAppend(a4, b4, '\'', "&#39;");
  }

  lemma ReplaceAllOne(c: char, x: char, rep: string)
    ensures ReplaceAll([c], x, rep) == if c == x then rep else [c]
  {
    assert [c][1..] == [];
  }

  /** Once the `&` step is done, the later steps leave an entity alone
      when it holds none of the characters they rewrite. */
  lemma LaterStepsKeep(e: string)
    requires forall i :: 0 <= i < |e| ==> e[i] != '<' && e[i] != '>' && e[i] != '"' && e[i] != '\''
    ensures ReplaceAll(ReplaceAll(ReplaceAll(ReplaceAll(e, '<', "&lt;"), '>', "&gt;"), '"', "&quot;"), '\'', "&#39;") == e
  {
    ReplaceAllAbsent(e, '<', "&lt;");
    ReplaceAllAbsent(e, '>', "&gt;");
    ReplaceAllAbsent(e, '"', "&quot;");
    ReplaceAllAbsent(e, '\'', "&#39;");
  }

  lemma EscapeHtmlSpecial(c: char)
    requires IsSpecial(c)
    ensures EscapeHtml([c]) == EscapeChar(c)
  {
    var s1 := ReplaceAll([c], '&', "&amp;");
    ReplaceAllOne(c, '&', "&amp;");
    if c == '&' {
      LaterStepsKeep("&amp;");
      return;
    }
    var s2 := ReplaceAll(s1, '<', "&lt;");
    ReplaceAllOne(c, '<', "&lt;");
    var s3 := ReplaceAll(s2, '>', "&gt;");
    if c == '<' {
      ReplaceAllAbsent("&lt;", '>', "&gt;");
      ReplaceAllAbsent("&lt;", '"', "&quot;");
      ReplaceAllAbsent("&lt;", '\'', "&#39;");
      return;
    }
    ReplaceAllOne(c, '>', "&gt;");
    var s4 := ReplaceAll(s3, '"', "&quot;");
    if c == '>' {
      ReplaceAllAbsent("&gt;", '"', "&quot;");
      ReplaceAllAbsent("&gt;", '\'', "&#39;");
      return;
    }
    ReplaceAllOne(c, '"', "&quot;");
    if c == '"' {
      ReplaceAllAbsent("&quot;", '\'', "&#39;");
      return;
    }
    ReplaceAllOne(c, '\'', "&#39;");
  }

  /** On one character the chain does what `EscapeChar` does: the entities
      written by a later step hold no character an even later step rewrites,
      and `&` goes first so no entity is escaped twice. */
  lemma EscapeHtmlChar(c: char)
    ensures EscapeHtml([c]) == EscapeChar(c)
  {
    if IsSpecial(c) {
      EscapeHtmlSpecial(c);
    } else {
      EscapeHtmlPlain([c]);
    }
  }

  /** The five-step chain equals the one-pass per-character escape. */
  lemma {:induction false} EscapeHtmlIsEscapeEach(s: string)
    ensures EscapeHtml(s) == EscapeEach(s)
  {
    if s != [] {
      assert s == [s[0]] + s[1..];
      EscapeHtmlAppend([s[0]], s[1..]);
      EscapeHtmlChar(s[0]);
      EscapeHtmlIsEscapeEach(s[1..]);
    }
  }

  lemma HtmlSafeAppend(a: string, b: string)
    requires HtmlSafe(a) && HtmlSafe(b)
    ensures HtmlSafe(a + b)
  {
    var t := a + b;
    forall i | 0 <= i < |t| && t[i] == '&'
      ensures StartsWithEntity(t[i..])
    {
      if i < |a| {
        assert a[i] == '&';
        assert t[i..] == a[i..] + b;
        assert StartsWithEntity(a[i..]);
      } else {
        assert b[i - |a|] == '&';
        assert t[i..] == b[i - |a|..];
      }
    }
  }

  /** An entity is safe: its only `&` is its first character. */
  lemma EntitySafe(e: string)
    requires |e| >= 4 && StartsWithEntity(e) && e[0] == '&'
    requires forall i :: 1 <= i < |e| ==> e[i] != '&' && e[i] != '<' && e[i] != '>' && e[i] != '"' && e[i] != '\''
    ensures HtmlSafe(e)
  {
    assert e[0..] == e;
  }

  lemma EscapeCharSafe(c: char)
    ensures HtmlSafe(EscapeChar(c))
  {
    var t := EscapeChar(c);
    if IsSpecial(c) {
      assert t[..|t|] == t;
      EntitySafe(t);
    }
  }

  lemma {:induction false} EscapeEachSafe(s: string)
    ensures HtmlSafe(EscapeEach(s))
  {
    if s != [] {
      EscapeCharSafe(s[0]);
      EscapeEachSafe(s[1..]);
      HtmlSafeAppend(EscapeChar(s[0]), EscapeEach(s[1..]));
    }
  }

  /** `escapeHtml` output holds none of `<`, `>`, `"`, `'`, and each `&` in it
      opens `&amp;`, `&lt;`, `&gt;`, `&quot;` or `&#39;`. */
  lemma EscapeHtmlSafe(s: string)
    ensures HtmlSafe(EscapeHtml(s))
  {
    EscapeHtmlIsEscapeEach(s);
    EscapeEachSafe(s);
  }

  /** Text without the five special characters passes through unchanged. */
  lemma EscapeHtmlPlain(s: string)
    requires forall i :: 0 <= i < |s| ==> !IsSpecial(s[i])
    ensures EscapeHtml(s) == s
  {
    ReplaceAllAbsent(s, '&', "&amp;");
    ReplaceAllAbsent(s, '<', "&lt;");
    ReplaceAllAbsent(s, '>', "&gt;");
    ReplaceAllAbsent(s, '"', "&quot;");
    ReplaceAllAbsent(s, '\'', "&#39;");
  }

  /** A character other than `&` is never the start of an entity. */
  lemma UnescapeOther(c: char, t: string)
    requires c != '&'
    ensures Unescape([c] + t) == [c] + Unescape(t)
  {
    var u := [c] + t;
    assert u[0] == c && u[1..] == t;
    assert |u| >= 4 ==> u[..4][0] == c;
    assert |u| >= 5 ==> u[..5][0] == c;
    assert |u| >= 6 ==> u[..6][0] == c;
  }

  lemma UnescapeEscapeChar(c: char, t: string)
    ensures Unescape(EscapeChar(c) + t) == [c] + Unescape(t)
  {
    var e := EscapeChar(c);
    var u := e + t;
    assert u[..|e|] == e && u[|e|..] == t;
    if c == '&' {
      assert u[..5] == "&amp;";
    } else if c == '<' {
      assert u[1] == 'l';
      assert u[..4] == "&lt;";
    } else if c == '>' {
      assert u[1] == 'g' && u[2] == 't';
      assert u[..4] == "&gt;";
    } else if c == '"' {
      assert u[1] == 'q';
      assert u[..6] == "&quot;";
    } else if c == '\'' {
      assert u[1] == '#';
      assert u[..5] == "&#39;";
    } else {
      UnescapeOther(c, t);
    }
  }

  lemma {:induction false} UnescapeEscapeEach(s: string)
    ensures Unescape(EscapeEach(s)) == s
  {
    if s != [] {
      UnescapeEscapeChar(s[0], EscapeEach(s[1..]));
      UnescapeEscapeEach(s[1..]);
      assert s == [s[0]] + s[1..];
    }
  }

  /** Escaping loses nothing: the entities read back give the original text,
      so two different strings never render alike. */
  lemma EscapeHtmlRoundTrip(s: string)
    ensures Unescape(EscapeHtml(s)) == s
  {
    EscapeHtmlIsEscapeEach(s);
    UnescapeEscapeEach(s);
  }

  /** Why `&` has to come first: the same chain with the `&` step last
      escapes the ampersand of every entity written before it. */
  function EscapeAmpersandLast(s: string): string
  {
    ReplaceAll(ReplaceAll(ReplaceAll(ReplaceAll(ReplaceAll(s,
      '<', "&lt;"), '>', "&gt;"), '"', "&quot;"), '\'', "&#39;"), '&', "&amp;")
  }

  lemma AmpersandLastSteps(lt: string)
    requires lt == ['&'] + "lt;"
    ensures ReplaceAll(ReplaceAll(ReplaceAll(ReplaceAll(lt, '>', "&gt;"), '"', "&quot;"), '\'', "&#39;"), '&', "&amp;")
      == "&amp;" + "lt;"
  {
    LaterStepsKeep(lt);
    ReplaceAllAbsent(lt, '<', "&lt;");
    ReplaceAllAppend(['&'], "lt;", '&', "&amp;");
    ReplaceAllOne('&', '&', "&amp;");
    ReplaceAllAbsent("lt;", '&', "&amp;");
  }

  lemma AmpersandOrderMatters()
    ensures EscapeAmpersandLast("<") == "&amp;" + "lt;"
    ensures EscapeAmpersandLast("<") != EscapeHtml("<")
  {
    ReplaceAllOne('<', '<', "&lt;");
    assert "&lt;" == ['&'] + "lt;";
    AmpersandLastSteps(ReplaceAll("<", '<', "&lt;"));
    EscapeHtmlChar('<');
    assert |EscapeAmpersandLast("<")| == 8;
  }
}
