/**
 The landing page escapes with five whole-string replacement passes, one after the other.
 Because each pass sees the output of the earlier ones, the result is right only in an
 order that replaces the ampersand first.
 */
module EscapePasses {
  import opened Html

  const APOSTROPHE := "&#039;"

  /** `replaceAll` with a one-character pattern. */
  function ReplaceAll(s: string, c: char, replacement: string): string {
    if s == "" then ""
    else (if s[0] == c then replacement else [s[0]]) + ReplaceAll(s[1..], c, replacement)
  }

  function EscapeHtml(value: string): string {
    var ampersands := ReplaceAll(value, '&', "&amp;");
    var openings := ReplaceAll(ampersands, '<', "&lt;");
    var closings := ReplaceAll(openings, '>', "&gt;");
    var quotes := ReplaceAll(closings, '\"', "&quot;");
    ReplaceAll(quotes, '\'', APOSTROPHE)
  }

  lemma {:induction false} ReplaceAllAppend(s: string, t: string, c: char, replacement: string)
    ensures ReplaceAll(s + t, c, replacement) == ReplaceAll(s, c, replacement) + ReplaceAll(t, c, replacement)
  {
    if s == "" {
      assert s + t == t;
    } else {
      assert (s + t)[1..] == s[1..] + t;
      ReplaceAllAppend(s[1..], t, c, replacement);
    }
  }

  /** A pass leaves a text without its character alone. */
  lemma {:induction false} ReplaceAllAbsent(s: string, c: char, replacement: string)
    requires c !in s
    ensures ReplaceAll(s, c, replacement) == s
  {
    if s != "" {
      ReplaceAllAbsent(s[1..], c, replacement);
    }
  }

  lemma ReplaceAllSingle(c: char, d: char, replacement: string)
    ensures ReplaceAll([c], d, replacement) == if c == d then replacement else [c]
  {
    assert [c][1..] == "";
  }

  /** The passes over one character: only its own pass touches it. */
  lemma EscapeHtmlChar(c: char)
    ensures EscapeHtml([c]) == EscapeChar(c, APOSTROPHE)
  {
    hide ReplaceAll;
    ReplaceAllSingle(c, '&', "&amp;");
    ReplaceAllSingle(c, '<', "&lt;");
    ReplaceAllSingle(c, '>', "&gt;");
    ReplaceAllSingle(c, '\"', "&quot;");
    ReplaceAllSingle(c, '\'', APOSTROPHE);
    if c == '&' {
      ReplaceAllAbsent("&amp;", '<', "&lt;");
      ReplaceAllAbsent("&amp;", '>', "&gt;");
      ReplaceAllAbsent("&amp;", '\"', "&quot;");
      ReplaceAllAbsent("&amp;", '\'', APOSTROPHE);
    } else if c == '<' {
      ReplaceAllAbsent("&lt;", '>', "&gt;");
      ReplaceAllAbsent("&lt;", '\"', "&quot;");
      ReplaceAllAbsent("&lt;", '\'', APOSTROPHE);
    } else if c == '>' {
      ReplaceAllAbsent("&gt;", '\"', "&quot;");
      ReplaceAllAbsent("&gt;", '\'', APOSTROPHE);
    } else if c == '\"' {
      ReplaceAllAbsent("&quot;", '\'', APOSTROPHE);
    }
  }

  lemma EscapeHtmlAppend(s: string, t: string)
    ensures EscapeHtml(s + t) == EscapeHtml(s) + EscapeHtml(t)
  {
    var s1, t1 := ReplaceAll(s, '&', "&amp;"), ReplaceAll(t, '&', "&amp;");
    var s2, t2 := ReplaceAll(s1, '<', "&lt;"), ReplaceAll(t1, '<', "&lt;");
    var s3, t3 := ReplaceAll(s2, '>', "&gt;"), ReplaceAll(t2, '>', "&gt;");
    var s4, t4 := ReplaceAll(s3, '\"', "&quot;"), ReplaceAll(t3, '\"', "&quot;");
    ReplaceAllAppend(s, t, '&', "&amp;");
    ReplaceAllAppend(s1, t1, '<', "&lt;");
    ReplaceAllAppend(s2, t2, '>', "&gt;");
    ReplaceAllAppend(s3, t3, '\"', "&quot;");
    ReplaceAllAppend(s4, t4, '\'', APOSTROPHE);
  }

  /** Five passes, ampersand first, are one pass over the characters. */
  lemma {:induction false} PassesAreOnePass(s: string)
    ensures EscapeHtml(s) == Escape(s, APOSTROPHE)
  {
    if s != "" {
      hide EscapeHtml, EscapeChar;
      assert s == [s[0]] + s[1..];
      EscapeHtmlAppend([s[0]], s[1..]);
      EscapeHtmlChar(s[0]);
      PassesAreOnePass(s[1..]);
    }
  }

  /** The escaped text is displayed as the original, for every string. */
  lemma EscapeHtmlRoundTrip(s: string)
    ensures TextOf(Render(EscapeHtml(s), "")) == s
  {
    PassesAreOnePass(s);
    EscapeRoundTrip(s, APOSTROPHE);
  }

  /** Escaping the ampersand after an earlier pass is wrong: "<" would be shown as "&lt;". */
  lemma AmpersandLastIsWrong()
    ensures TextOf(Render(ReplaceAll(ReplaceAll("<", '<', "&lt;"), '&', "&amp;"), "")) == "&lt;"
  {
    ReplaceAllSingle('<', '<', "&lt;");
    ReplaceAllAppend("&", "lt;", '&', "&amp;");
    ReplaceAllSingle('&', '&', "&amp;");
    ReplaceAllAbsent("lt;", '&', "&amp;");
    assert "&" + "lt;" == "&lt;";
    RenderEscaped("&", APOSTROPHE, "lt;", "");
    assert Escape("&", APOSTROPHE) == "&amp;" by {
      assert "&"[1..] == "";
    }
    RenderEscaped("lt;", APOSTROPHE, "", "");
    assert Escape("lt;", APOSTROPHE) == "lt;" by {
      assert "lt;"[1..] == "t;" && "t;"[1..] == ";" && ";"[1..] == "";
    }
    assert "lt;" + "" == "lt;";
  }
}
