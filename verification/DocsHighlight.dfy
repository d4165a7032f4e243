/**
 The documentation page's syntax highlighter: an ordered-rule tokenizer that writes
 HTML while it moves a cursor over the source.

 A rule's regular expression is sticky, so all the tokenizer learns from it is how many
 characters it matches at the cursor. `matcher` is any function giving that number; no
 match reaches past the end of the source, so `MatchLength` cuts the number there.
 */
module DocsHighlight {
  import opened Wrappers
  import opened Html

  datatype Rule = Rule(cls: string, matcher: (string, nat) -> nat, wordStart: bool)

  /** A piece of the source: one rule's match, or (with no class) one plain character. */
  datatype Token = Token(cls: Option<string>, text: string)

  const APOSTROPHE := "&#39;"

  predicate IsWordChar(c: char) {
    'a' <= c <= 'z' || 'A' <= c <= 'Z' || '0' <= c <= '9' || c == '_' || c == '-'
  }

  function MatchLength(rule: Rule, source: string, index: nat): (len: nat)
    requires index <= |source|
    ensures index + len <= |source|
  {
    var len := rule.matcher(source, index);
    if index + len <= |source| then len else |source| - index
  }

  /** The rule may start a token here and matches at least one character. */
  predicate Applies(rule: Rule, source: string, index: nat)
    requires index < |source|
  {
    && !(rule.wordStart && index > 0 && IsWordChar(source[index - 1]))
    && MatchLength(rule, source, index) > 0
  }

  /** The number of the first rule from `i` on that applies, or |rules|. */
  function FirstRule(rules: seq<Rule>, i: nat, source: string, index: nat): (r: nat)
    requires index < |source| && i <= |rules|
    ensures i <= r <= |rules|
    ensures r < |rules| ==> Applies(rules[r], source, index)
    decreases |rules| - i
  {
    if i == |rules| || Applies(rules[i], source, index) then i
    else FirstRule(rules, i + 1, source, index)
  }

  lemma {:induction false} FirstRuleApplies(rules: seq<Rule>, i: nat, source: string, index: nat)
    requires index < |source| && i <= |rules|
    ensures var r := FirstRule(rules, i, source, index);
      && (r < |rules| ==> Applies(rules[r], source, index))
      && forall j :: i <= j < r ==> !Applies(rules[j], source, index)
    decreases |rules| - i
  {
    if i < |rules| && !Applies(rules[i], source, index) {
      FirstRuleApplies(rules, i + 1, source, index);
    }
  }

  function TokenAt(rules: seq<Rule>, source: string, index: nat): (t: Token)
    requires index < |source|
    ensures 1 <= |t.text| <= |source| - index
    ensures source[index..index + |t.text|] == t.text
  {
    var i := FirstRule(rules, 0, source, index);
    if i < |rules| then
      Token(Some(rules[i].cls), source[index..index + MatchLength(rules[i], source, index)])
    else
      Token(None, [source[index]])
  }

  /** The tokens of the source from the cursor on. */
  function Tokens(rules: seq<Rule>, source: string, index: nat): seq<Token>
    requires index <= |source|
    decreases |source| - index
  {
    if index == |source| then []
    else
      var t := TokenAt(rules, source, index);
      [t] + Tokens(rules, source, index + |t.text|)
  }

  function TagOf(cls: string): string {
    "span class=\"tok-" + cls + "\""
  }

  function TokenHtml(t: Token): string {
    match t.cls
    case None => Escape(t.text, APOSTROPHE)
    case Some(cls) => "<" + TagOf(cls) + ">" + Escape(t.text, APOSTROPHE) + "</span>"
  }

  function TokensHtml(tokens: seq<Token>): string {
    if tokens == [] then "" else TokenHtml(tokens[0]) + TokensHtml(tokens[1..])
  }

  /** What a reader should see: every token's text, in the style of its class. */
  function Styled(tokens: seq<Token>): seq<Glyph> {
    if tokens == [] then []
    else
      var t := tokens[0];
      Plain(t.text, if t.cls.Some? then TagOf(t.cls.value) else "") + Styled(tokens[1..])
  }

  function Source(tokens: seq<Token>): string {
    if tokens == [] then "" else tokens[0].text + Source(tokens[1..])
  }

  predicate TagSafe(rules: seq<Rule>) {
    forall i :: 0 <= i < |rules| ==> '>' !in rules[i].cls
  }

  predicate TokensTagSafe(tokens: seq<Token>) {
    forall i :: 0 <= i < |tokens| ==> tokens[i].cls.Some? ==> '>' !in tokens[i].cls.value
  }

  /** The rule loop of `highlight`: the first rule that matches at the cursor wins. */
  method MatchAt(source: string, rules: seq<Rule>, index: nat) returns (token: Token)
    requires index < |source|
    ensures token == TokenAt(rules, source, index)
  {
    for i := 0 to |rules|
      invariant FirstRule(rules, i, source, index) == FirstRule(rules, 0, source, index)
    {
      var rule := rules[i];
      if rule.wordStart && index > 0 && IsWordChar(source[index - 1]) {
        continue;
      }
      var len := MatchLength(rule, source, index);
      if len > 0 {
        return Token(Some(rule.cls), source[index..index + len]);
      }
    }
    return Token(None, [source[index]]);
  }

  /** The cursor loop of `highlight`. */
  method Highlight(source: string, rules: seq<Rule>) returns (html: string)
    ensures html == TokensHtml(Tokens(rules, source, 0))
  {
    hide TokenHtml;
    html := "";
    var index := 0;
    ghost var tokens := Tokens(rules, source, 0);
    ghost var k := 0;
    while index < |source|
      invariant index <= |source| && k <= |tokens|
      invariant tokens[k..] == Tokens(rules, source, index)
      invariant html == TokensHtml(tokens[..k])
    {
      var token := MatchAt(source, rules, index);
      NextToken(rules, source, index, tokens, k);
      WriteToken(tokens, k);
      html := html + TokenHtml(token);
      index := index + |token.text|;
      k := k + 1;
    }
    assert tokens[..k] == tokens;
  }

  lemma NextToken(rules: seq<Rule>, source: string, index: nat, tokens: seq<Token>, k: nat)
    requires index < |source| && k <= |tokens| && tokens[k..] == Tokens(rules, source, index)
    ensures k < |tokens| && tokens[k] == TokenAt(rules, source, index)
    ensures tokens[k + 1..] == Tokens(rules, source, index + |tokens[k].text|)
  {
    assert tokens[k..][0] == tokens[k];
    assert tokens[k..][1..] == tokens[k + 1..];
  }

  lemma {:induction false} WriteToken(tokens: seq<Token>, k: nat)
    requires k < |tokens|
    ensures TokensHtml(tokens[..k + 1]) == TokensHtml(tokens[..k]) + TokenHtml(tokens[k])
  {
    hide TokenHtml;
    if k == 0 {
      assert tokens[..1][1..] == [];
      Concatenation("", TokenHtml(tokens[0]), "");
    } else {
      WriteToken(tokens[1..], k - 1);
      assert tokens[1..][..k] == tokens[..k + 1][1..];
      assert tokens[1..][..k - 1] == tokens[..k][1..];
      Concatenation(TokenHtml(tokens[0]), TokensHtml(tokens[1..][..k - 1]), TokenHtml(tokens[k]));
    }
  }

  lemma Concatenation(a: string, b: string, c: string)
    ensures a + (b + c) == a + b + c
    ensures a + "" == "" + a == a
  {
  }

  /** Highlighting changes nothing a reader sees except the styles of the tokens. */
  lemma HighlightFaithful(rules: seq<Rule>, source: string)
    requires TagSafe(rules)
    ensures var html := TokensHtml(Tokens(rules, source, 0));
      && Render(html, "") == Styled(Tokens(rules, source, 0))
      && TextOf(Render(html, "")) == source
  {
    TokensKeepClasses(rules, source, 0);
    RenderTokens(Tokens(rules, source, 0));
    TokensCoverSource(rules, source, 0);
    StyledText(Tokens(rules, source, 0));
  }

  lemma {:induction false} TokensKeepClasses(rules: seq<Rule>, source: string, index: nat)
    requires index <= |source| && TagSafe(rules)
    ensures TokensTagSafe(Tokens(rules, source, index))
    decreases |source| - index
  {
    if index < |source| {
      TokensKeepClasses(rules, source, index + |TokenAt(rules, source, index).text|);
    }
  }

  /** The written HTML is displayed as the tokens, each in its own class. */
  lemma {:induction false} RenderTokens(tokens: seq<Token>)
    requires TokensTagSafe(tokens)
    ensures Render(TokensHtml(tokens), "") == Styled(tokens)
  {
    if tokens != [] {
      var t, rest := tokens[0], TokensHtml(tokens[1..]);
      RenderTokens(tokens[1..]);
      RenderToken(t, rest);
    }
  }

  lemma RenderToken(t: Token, rest: string)
    requires t.cls.Some? ==> '>' !in t.cls.value
    ensures Render(TokenHtml(t) + rest, "")
         == Plain(t.text, if t.cls.Some? then TagOf(t.cls.value) else "") + Render(rest, "")
  {
    match t.cls {
      case None => RenderEscaped(t.text, APOSTROPHE, rest, "");
      case Some(cls) =>
        var tag, body := TagOf(cls), Escape(t.text, APOSTROPHE);
        var close := "<" + "/span" + ">" + rest;
        assert TokenHtml(t) + rest == "<" + tag + ">" + (body + close);
        RenderTag(tag, body + close, "");
        assert tag[0] == 's' && StyleOf(tag) == tag;
        RenderEscaped(t.text, APOSTROPHE, close, tag);
        RenderTag("/span", rest, tag);
    }
  }

  /** Nothing of the source is lost, repeated or reordered by tokenizing. */
  lemma {:induction false} TokensCoverSource(rules: seq<Rule>, source: string, index: nat)
    requires index <= |source|
    ensures Source(Tokens(rules, source, index)) == source[index..]
    decreases |source| - index
  {
    if index < |source| {
      var t := TokenAt(rules, source, index);
      TokensCoverSource(rules, source, index + |t.text|);
      assert source[index..] == t.text + source[index + |t.text|..];
      assert Tokens(rules, source, index)[1..] == Tokens(rules, source, index + |t.text|);
    }
  }

  lemma {:induction false} StyledText(tokens: seq<Token>)
    ensures TextOf(Styled(tokens)) == Source(tokens)
  {
    if tokens != [] {
      StyledText(tokens[1..]);
      PlainText(tokens[0].text, if tokens[0].cls.Some? then TagOf(tokens[0].cls.value) else "");
    }
  }

  /** A letter, digit, underscore or hyphen stands right before the position. */
  predicate InsideWord(source: string, at: nat)
    requires at <= |source|
  {
    at > 0 &&
    var c := source[at - 1];
    'a' <= c <= 'z' || 'A' <= c <= 'Z' || '0' <= c <= '9' || c == '_' || c == '-'
  }

  /** The rule matches something at the position, and does not have to start a word where one is going on. */
  predicate MatchesAt(rule: Rule, source: string, at: nat)
    requires at < |source|
  {
    rule.matcher(source, at) > 0 && !(rule.wordStart && InsideWord(source, at))
  }

  lemma AppliesIsMatch(rule: Rule, source: string, at: nat)
    requires at < |source|
    ensures Applies(rule, source, at) <==> MatchesAt(rule, source, at)
    ensures MatchLength(rule, source, at) == if at + rule.matcher(source, at) <= |source| then rule.matcher(source, at) else |source| - at
  {
  }

  /** `t` is what the rules make of position `at`: the match of the first rule that matches, or a plain character if none does. */
  ghost predicate FirstMatch(rules: seq<Rule>, source: string, at: nat, t: Token) {
    && at < |source| && at + |t.text| <= |source| && source[at..at + |t.text|] == t.text
    && match t.cls
       case None => |t.text| == 1 && forall i :: 0 <= i < |rules| ==> !MatchesAt(rules[i], source, at)
       case Some(cls) => exists i :: 0 <= i < |rules| && rules[i].cls == cls
                           && MatchesAt(rules[i], source, at)
                           && (|t.text| == rules[i].matcher(source, at) || (|t.text| == |source| - at < rules[i].matcher(source, at)))
                           && forall j :: 0 <= j < i ==> !MatchesAt(rules[j], source, at)
  }

  lemma TokenAtIsFirstMatch(rules: seq<Rule>, source: string, index: nat)
    requires index < |source|
    ensures FirstMatch(rules, source, index, TokenAt(rules, source, index))
  {
    hide Applies, MatchLength, MatchesAt;
    FirstRuleApplies(rules, 0, source, index);
    forall i | 0 <= i < |rules| ensures Applies(rules[i], source, index) <==> MatchesAt(rules[i], source, index) {
      AppliesIsMatch(rules[i], source, index);
    }
    var r := FirstRule(rules, 0, source, index);
    if r < |rules| {
      AppliesIsMatch(rules[r], source, index);
      assert MatchesAt(rules[r], source, index);
    }
  }

  /** Every token of a whole source was chosen at its own position. */
  lemma {:induction false} TokenIsFirstMatch(rules: seq<Rule>, source: string, index: nat, k: nat)
    requires index <= |source|
    requires k < |Tokens(rules, source, index)|
    ensures var tokens := Tokens(rules, source, index);
      FirstMatch(rules, source, index + |Source(tokens[..k])|, tokens[k])
    decreases k
  {
    hide FirstMatch, TokenAt;
    var tokens := Tokens(rules, source, index);
    if k == 0 {
      assert tokens[..0] == [];
      TokenAtIsFirstMatch(rules, source, index);
    } else {
      var t := TokenAt(rules, source, index);
      var next := index + |t.text|;
      assert tokens[1..] == Tokens(rules, source, next);
      TokenIsFirstMatch(rules, source, next, k - 1);
      assert tokens[..k][1..] == Tokens(rules, source, next)[..k - 1];
      assert Source(tokens[..k]) == t.text + Source(Tokens(rules, source, next)[..k - 1]);
    }
  }

  /**
   Each token is displayed as its own text: a matched one inside a span of class `tok-` and the
   rule's class, a plain character outside any element.
   */
  lemma TokenIsStyled(rules: seq<Rule>, source: string, k: nat)
    requires TagSafe(rules) && k < |Tokens(rules, source, 0)|
    ensures ShownAs(Render(TokensHtml(Tokens(rules, source, 0)), ""), Tokens(rules, source, 0), k)
  {
    HighlightFaithful(rules, source);
    hide Render, TokensHtml, Tokens;
    StyledIsShown(Tokens(rules, source, 0), k);
  }

  /** Behind the text of the first `k` tokens stands the text of the next one, in the element of its class. */
  ghost predicate ShownAs(glyphs: seq<Glyph>, tokens: seq<Token>, k: nat)
    requires k < |tokens|
  {
    var at, t := |Source(tokens[..k])|, tokens[k];
    && at + |t.text| <= |glyphs|
    && glyphs[at..at + |t.text|] == Plain(t.text, if t.cls.Some? then "span class=\"tok-" + t.cls.value + "\"" else "")
  }

  lemma StyledIsShown(tokens: seq<Token>, k: nat)
    requires k < |tokens|
    ensures ShownAs(Styled(tokens), tokens, k)
  {
    StyledAt(tokens, k);
    hide Styled, Source;
  }

  function StyleFor(t: Token): string {
    if t.cls.Some? then TagOf(t.cls.value) else ""
  }

  lemma {:induction false} StyledAt(tokens: seq<Token>, k: nat)
    requires k < |tokens|
    ensures var at := |Source(tokens[..k])|;
      at + |tokens[k].text| <= |Styled(tokens)| && Styled(tokens)[at..at + |tokens[k].text|] == Plain(tokens[k].text, StyleFor(tokens[k]))
  {
    var first := Plain(tokens[0].text, StyleFor(tokens[0]));
    assert Styled(tokens) == first + Styled(tokens[1..]);
    if k == 0 {
      assert tokens[..0] == [];
      assert |Source(tokens[..0])| == 0;
    } else {
      StyledAt(tokens[1..], k - 1);
      assert tokens[..k][1..] == tokens[1..][..k - 1];
      assert |Source(tokens[..k])| == |first| + |Source(tokens[1..][..k - 1])|;
      hide Source, Styled, Plain, StyleFor;
      Offset(first, Styled(tokens[1..]), |Source(tokens[1..][..k - 1])|, |tokens[k].text|);
    }
  }

  lemma Offset(first: seq<Glyph>, rest: seq<Glyph>, at: nat, n: nat)
    requires at + n <= |rest|
    ensures (first + rest)[|first| + at..|first| + at + n] == rest[at..at + n]
  {
  }
}
