/**
 HTML text as the marketing pages produce it: the one-pass escaping of the five
 special characters, and an independent reader of the result. The reader plays the
 browser's part (`innerHTML` followed by reading the text back): it drops tags,
 decodes entities, and remembers for every character which element it stood in.
 */
module Html {

  /** A character as displayed, with the tag it stands in ("" outside any tag). */
  datatype Glyph = Glyph(ch: char, style: string)

  /** The source's per-character table; the two pages spell the apostrophe differently. */
  function EscapeChar(c: char, apostrophe: string): string {
    if c == '&' then "&amp;"
    else if c == '<' then "&lt;"
    else if c == '>' then "&gt;"
    else if c == '\"' then "&quot;"
    else if c == '\'' then apostrophe
    else [c]
  }

  function Escape(s: string, apostrophe: string): string {
    if s == "" then "" else EscapeChar(s[0], apostrophe) + Escape(s[1..], apostrophe)
  }

  /** Every spelling of the apostrophe the pages use. */
  predicate IsApostrophe(entity: string) {
    entity == "&#39;" || entity == "&#039;"
  }

  /** The character an ampersand stands for, and how many characters it takes. */
  function Entity(html: string): (r: (char, nat))
    requires html != "" && html[0] == '&'
    ensures 1 <= r.1 <= |html|
  {
    if "&amp;" <= html then ('&', 5)
    else if "&lt;" <= html then ('<', 4)
    else if "&gt;" <= html then ('>', 4)
    else if "&quot;" <= html then ('\"', 6)
    else if "&#39;" <= html then ('\'', 5)
    else if "&#039;" <= html then ('\'', 6)
    else ('&', 1)
  }

  /** Where the tag that begins before position 0 of `html` closes. */
  function TagEnd(html: string): (k: nat)
    ensures k <= |html|
    ensures k < |html| ==> html[k] == '>'
    ensures '>' !in html[..k]
  {
    if html == "" || html[0] == '>' then 0 else 1 + TagEnd(html[1..])
  }

  /** An opening tag starts its style, a closing one ends it. */
  function StyleOf(tag: string): string {
    if "/" <= tag then "" else tag
  }

  /** Reads HTML as a browser displays it. */
  function Render(html: string, style: string): seq<Glyph>
    decreases |html|
  {
    if html == "" then []
    else if html[0] == '<' then
      var k := TagEnd(html[1..]);
      if k == |html| - 1 then [] else Render(html[k + 2..], StyleOf(html[1..k + 1]))
    else if html[0] == '&' then
      var (c, n) := Entity(html);
      [Glyph(c, style)] + Render(html[n..], style)
    else
      [Glyph(html[0], style)] + Render(html[1..], style)
  }

  /** The displayed characters alone: what `textContent` returns. */
  function TextOf(glyphs: seq<Glyph>): string {
    seq(|glyphs|, i requires 0 <= i < |glyphs| => glyphs[i].ch)
  }

  function Plain(s: string, style: string): seq<Glyph> {
    seq(|s|, i requires 0 <= i < |s| => Glyph(s[i], style))
  }

  lemma RenderEscapedChar(c: char, apostrophe: string, rest: string, style: string)
    requires IsApostrophe(apostrophe)
    ensures Render(EscapeChar(c, apostrophe) + rest, style) == [Glyph(c, style)] + Render(rest, style)
  {
    var e := EscapeChar(c, apostrophe);
    var html := e + rest;
    assert html[..|e|] == e && html[|e|..] == rest;
    if e[0] == '&' {
      assert e <= html;
      assert html[0] == '&' && html[1] == e[1] && html[2] == e[2] && html[3] == e[3];
      assert |e| >= 5 ==> html[4] == e[4];
      assert Entity(html) == (c, |e|);
    }
  }

  /** Escaped text is displayed as itself, whatever follows and whatever tag it stands in. */
  lemma {:induction false} RenderEscaped(s: string, apostrophe: string, rest: string, style: string)
    requires IsApostrophe(apostrophe)
    ensures Render(Escape(s, apostrophe) + rest, style) == Plain(s, style) + Render(rest, style)
  {
    var glyphs := Render(rest, style);
    if s == "" {
      assert Escape(s, apostrophe) + rest == rest;
      assert Plain(s, style) + glyphs == glyphs;
    } else {
      var tail := Escape(s[1..], apostrophe) + rest;
      assert Escape(s, apostrophe) + rest == EscapeChar(s[0], apostrophe) + tail;
      RenderEscapedChar(s[0], apostrophe, tail, style);
      RenderEscaped(s[1..], apostrophe, rest, style);
      PlainStep(s, style, glyphs);
    }
  }

  lemma PlainStep(s: string, style: string, glyphs: seq<Glyph>)
    requires s != ""
    ensures [Glyph(s[0], style)] + (Plain(s[1..], style) + glyphs) == Plain(s, style) + glyphs
  {
    assert Plain(s, style) == [Glyph(s[0], style)] + Plain(s[1..], style);
  }

  lemma {:induction false} TagEndAt(tag: string, rest: string)
    requires '>' !in tag
    ensures TagEnd(tag + ">" + rest) == |tag|
  {
    if tag != "" {
      assert (tag + ">" + rest)[1..] == tag[1..] + ">" + rest;
      TagEndAt(tag[1..], rest);
    }
  }

  /** A tag displays nothing and sets the style of what follows. */
  lemma RenderTag(tag: string, rest: string, style: string)
    requires '>' !in tag
    ensures Render("<" + tag + ">" + rest, style) == Render(rest, StyleOf(tag))
  {
    var html := "<" + tag + ">" + rest;
    assert html[1..] == tag + ">" + rest;
    TagEndAt(tag, rest);
    assert html[1..|tag| + 1] == tag && html[|tag| + 2..] == rest;
  }

  lemma PlainText(s: string, style: string)
    ensures TextOf(Plain(s, style)) == s
  {
  }

  /** Escaping loses nothing: displaying the escaped text gives the text back. */
  lemma EscapeRoundTrip(s: string, apostrophe: string)
    requires IsApostrophe(apostrophe)
    ensures TextOf(Render(Escape(s, apostrophe), "")) == s
  {
    RenderEscaped(s, apostrophe, "", "");
    assert Escape(s, apostrophe) + "" == Escape(s, apostrophe);
    assert Render("", "") == [];
    assert Plain(s, "") + [] == Plain(s, "");
  }

  /** Escaped text holds no character that could open or close a tag or an attribute value. */
  lemma {:induction false} EscapedIsInert(s: string, apostrophe: string)
    requires IsApostrophe(apostrophe)
    ensures forall c :: c in Escape(s, apostrophe) ==> c !in {'<', '>', '\"', '\''}
  {
    if s != "" {
      EscapedIsInert(s[1..], apostrophe);
    }
  }
}
