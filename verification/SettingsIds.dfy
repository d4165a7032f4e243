/**
 Generated monitor and group ids: a readable slug of the name, a hyphen, and eight
 characters of a fresh UUID.

 The pipeline starts here with the text that `toLowerCase` and `normalize("NFKD")` leave;
 it may be any text at all.
 */
module SettingsIds {

  const MAX_BASE := 55
  const MAX_ID := 64

  predicate IsAlnum(c: char) {
    'a' <= c <= 'z' || '0' <= c <= '9'
  }

  /** Drops the leading run of characters that are not alphanumeric. */
  function DropRun(s: string): (r: string)
    ensures |r| <= |s|
    ensures r != "" ==> IsAlnum(r[0])
  {
    if s == "" || IsAlnum(s[0]) then s else DropRun(s[1..])
  }

  /** `replace(/[^a-z0-9]+/g, "-")`: every run of other characters becomes one hyphen. */
  function Collapse(s: string): string
    decreases |s|
  {
    if s == "" then ""
    else if IsAlnum(s[0]) then [s[0]] + Collapse(s[1..])
    else "-" + Collapse(DropRun(s[1..]))
  }

  function StripLeading(s: string): (r: string)
    ensures r == "" || r[0] != '-'
  {
    if s == "" || s[0] != '-' then s else StripLeading(s[1..])
  }

  function StripTrailing(s: string): (r: string)
    ensures r == "" || r[|r| - 1] != '-'
    ensures r <= s
  {
    if s == "" || s[|s| - 1] != '-' then s else StripTrailing(s[..|s| - 1])
  }

  function Slice(s: string, n: nat): string {
    if |s| <= n then s else s[..n]
  }

  function Base(name: string): string {
    StripTrailing(Slice(StripTrailing(StripLeading(Collapse(name))), MAX_BASE))
  }

  function GeneratedId(name: string, fallback: string, uuid: string): string {
    var base := Base(name);
    var prefix := if base == "" then fallback else base;
    Slice(prefix + "-" + Slice(uuid, 8), MAX_ID)
  }

  function GeneratedMonitorId(name: string, uuid: string): string {
    GeneratedId(name, "monitor", uuid)
  }

  function GeneratedGroupId(name: string, uuid: string): string {
    GeneratedId(name, "group", uuid)
  }

  /** Alphanumeric characters and single hyphens. */
  predicate Hyphenated(s: string) {
    && (forall i :: 0 <= i < |s| ==> IsAlnum(s[i]) || s[i] == '-')
    && (forall i :: 0 < i < |s| ==> IsAlnum(s[i - 1]) || IsAlnum(s[i]))
  }

  /** Hyphenated, and a hyphen neither first nor last. */
  predicate IsSlug(s: string) {
    Hyphenated(s) && (s != "" ==> IsAlnum(s[0]) && IsAlnum(s[|s| - 1]))
  }

  lemma {:induction false} CollapseHyphenates(s: string)
    ensures Hyphenated(Collapse(s))
    ensures s != "" && IsAlnum(s[0]) ==> Collapse(s) != "" && IsAlnum(Collapse(s)[0])
    decreases |s|
  {
    if s == "" {
    } else if IsAlnum(s[0]) {
      CollapseHyphenates(s[1..]);
    } else {
      CollapseHyphenates(DropRun(s[1..]));
    }
  }

  lemma {:induction false} StripLeadingHyphenates(s: string)
    requires Hyphenated(s)
    ensures Hyphenated(StripLeading(s))
  {
    if s != "" && s[0] == '-' {
      StripLeadingHyphenates(s[1..]);
    }
  }

  lemma {:induction false} PrefixHyphenates(s: string, r: string)
    requires Hyphenated(s) && r <= s
    ensures Hyphenated(r)
  {
    forall i | 0 <= i < |r| ensures r[i] == s[i] {
    }
  }

  lemma BaseIsSlug(name: string)
    ensures IsSlug(Base(name)) && |Base(name)| <= MAX_BASE
  {
    var collapsed := Collapse(name);
    var left := StripLeading(collapsed);
    var both := StripTrailing(left);
    var cut := Slice(both, MAX_BASE);
    CollapseHyphenates(name);
    StripLeadingHyphenates(collapsed);
    PrefixHyphenates(left, both);
    PrefixHyphenates(both, cut);
    PrefixHyphenates(cut, StripTrailing(cut));
    var base := StripTrailing(cut);
    assert base <= left;
    if base != "" {
      assert base[0] == left[0];
    }
  }

  /** Every name gives a well-formed id that ends in the whole suffix. */
  lemma GeneratedIdIsSlug(name: string, fallback: string, uuid: string)
    requires IsSlug(fallback) && 0 < |fallback| <= MAX_BASE
    requires |uuid| >= 8 && forall i :: 0 <= i < 8 ==> IsAlnum(uuid[i])
    ensures var id := GeneratedId(name, fallback, uuid);
      && IsSlug(id) && 10 <= |id| <= 64
      && id[|id| - 8..] == uuid[..8] && id[|id| - 9] == '-'
      && id[..|id| - 9] == if Base(name) == "" then fallback else Base(name)
  {
    hide Base;
    BaseIsSlug(name);
    var prefix := if Base(name) == "" then fallback else Base(name);
    var id := prefix + "-" + uuid[..8];
    assert |id| <= MAX_ID;
    assert id[|id| - 1] == uuid[7] && id[0] == prefix[0] && id[|prefix|] == '-';
    forall i | 0 <= i < |id| ensures IsAlnum(id[i]) || (id[i] == '-' && 0 < i < |id| - 1 && IsAlnum(id[i - 1]) && IsAlnum(id[i + 1])) {
      if i < |prefix| {
        assert id[i] == prefix[i];
        if prefix[i] == '-' {
          assert 0 < i < |prefix| - 1 && id[i - 1] == prefix[i - 1] && id[i + 1] == prefix[i + 1];
        }
      } else if i > |prefix| {
        assert id[i] == uuid[i - |prefix| - 1];
      } else {
        assert id[i - 1] == prefix[|prefix| - 1] && id[i + 1] == uuid[0];
      }
    }
  }

  lemma GeneratedMonitorIdIsSlug(name: string, uuid: string)
    requires |uuid| >= 8 && forall i :: 0 <= i < 8 ==> IsAlnum(uuid[i])
    ensures var id := GeneratedMonitorId(name, uuid);
      IsSlug(id) && |id| <= 64 && id[|id| - 8..] == uuid[..8]
  {
    GeneratedIdIsSlug(name, "monitor", uuid);
  }

  lemma GeneratedGroupIdIsSlug(name: string, uuid: string)
    requires |uuid| >= 8 && forall i :: 0 <= i < 8 ==> IsAlnum(uuid[i])
    ensures var id := GeneratedGroupId(name, uuid);
      IsSlug(id) && |id| <= 64 && id[|id| - 8..] == uuid[..8]
  {
    GeneratedIdIsSlug(name, "group", uuid);
  }

  lemma {:induction false} CollapseOfSlug(s: string)
    requires Hyphenated(s) && (s != "" ==> s[|s| - 1] != '-')
    ensures Collapse(s) == s
    decreases |s|
  {
    if s != "" {
      forall i | 0 <= i < |s| - 1 ensures s[1..][i] == s[i + 1] {
      }
      CollapseOfSlug(s[1..]);
      if s[0] == '-' {
        assert s[1..] != "" && IsAlnum(s[1..][0]);
        assert DropRun(s[1..]) == s[1..];
      }
      assert s == [s[0]] + s[1..];
      hide Hyphenated, DropRun;
    }
  }

  /**
   The pipeline changes exactly the names that are not already short slugs; in particular
   a second application changes nothing.
   */
  lemma BaseFixedPoints(s: string)
    ensures Base(s) == s <==> IsSlug(s) && |s| <= MAX_BASE
    ensures Base(Base(s)) == Base(s)
  {
    BaseIsSlug(s);
    ShortSlugIsFixed(Base(s));
    if IsSlug(s) && |s| <= MAX_BASE {
      ShortSlugIsFixed(s);
    }
  }

  lemma ShortSlugIsFixed(s: string)
    requires IsSlug(s) && |s| <= MAX_BASE
    ensures Base(s) == s
  {
    CollapseOfSlug(s);
  }

  // ---- What an id says ----

  /** The ASCII lower-case letters and digits, by code point. */
  lemma AlnumMeaning(c: char)
    ensures IsAlnum(c) <==> 97 <= c as int <= 122 || 48 <= c as int <= 57
  {
  }

  /** The runs of alphanumeric characters of a text, in order. */
  function Words(s: string): (w: seq<string>)
    ensures s != "" && IsAlnum(s[0]) ==> w != []
  {
    if s == "" then []
    else if !IsAlnum(s[0]) then Words(s[1..])
    else if s[1..] == "" || !IsAlnum(s[1]) then [[s[0]]] + Words(s[1..])
    else
      var rest := Words(s[1..]);
      [[s[0]] + rest[0]] + rest[1..]
  }

  function Hyphened(words: seq<string>): string {
    if words == [] then ""
    else if |words| == 1 then words[0]
    else words[0] + "-" + Hyphened(words[1..])
  }

  lemma {:induction false} WordsAfterRun(s: string)
    ensures Words(DropRun(s)) == Words(s)
  {
    if s != "" && !IsAlnum(s[0]) {
      WordsAfterRun(s[1..]);
    }
  }

  lemma {:induction false} DropRunEnd(s: string)
    ensures DropRun(s) != "" ==> DropRun(s)[|DropRun(s)| - 1] == s[|s| - 1]
    ensures DropRun(s) == "" ==> Words(s) == []
  {
    if s != "" && !IsAlnum(s[0]) {
      DropRunEnd(s[1..]);
    }
  }

  /** A text whose words are none has no alphanumeric character to end with. */
  lemma {:induction false} NoWords(s: string)
    requires s != "" && Words(s) == []
    ensures !IsAlnum(s[|s| - 1]) && DropRun(s) == ""
  {
    if |s| > 1 {
      NoWords(s[1..]);
    }
  }

  lemma HyphenedWord(word: string, words: seq<string>)
    ensures Hyphened([word] + words) == if words == [] then word else word + "-" + Hyphened(words)
  {
    assert ([word] + words)[1..] == words;
  }

  lemma HyphenedLonger(c: char, words: seq<string>)
    requires words != []
    ensures Hyphened([[c] + words[0]] + words[1..]) == [c] + Hyphened(words)
  {
    HyphenedWord([c] + words[0], words[1..]);
    HyphenedWord(words[0], words[1..]);
    assert [words[0]] + words[1..] == words;
    hide Hyphened;
    if |words| > 1 {
      Shift(c, words[0], "-", Hyphened(words[1..]));
    }
  }

  lemma Shift(c: char, a: string, b: string, d: string)
    ensures [c] + a + b + d == [c] + (a + b + d)
  {
  }

  function Lead(s: string): string {
    if s != "" && !IsAlnum(s[0]) then "-" else ""
  }

  function Trail(s: string): string {
    if Words(s) != [] && !IsAlnum(s[|s| - 1]) then "-" else ""
  }

  lemma LastLetter(s: string)
    requires |s| == 1 && IsAlnum(s[0])
    ensures Hyphened(Words(s)) == s && Trail(s) == "" && Hyphened(Words(s[1..])) == "" && Lead(s[1..]) == "" && Trail(s[1..]) == ""
  {
    assert s[1..] == "" && [s[0]] == s && Words(s) == [[s[0]]];
  }

  lemma LetterInWord(s: string)
    requires |s| > 1 && IsAlnum(s[0]) && IsAlnum(s[1])
    ensures Hyphened(Words(s)) == [s[0]] + Hyphened(Words(s[1..])) && Trail(s) == Trail(s[1..]) && Lead(s[1..]) == ""
  {
    hide Hyphened;
    HyphenedLonger(s[0], Words(s[1..]));
  }

  lemma LetterEndsWord(s: string)
    requires |s| > 1 && IsAlnum(s[0]) && !IsAlnum(s[1])
    ensures Lead(s[1..]) == "-"
    ensures Words(s[1..]) == [] ==> Hyphened(Words(s)) == [s[0]] && Trail(s) == "-" && Hyphened(Words(s[1..])) == "" && Trail(s[1..]) == ""
    ensures Words(s[1..]) != [] ==> Hyphened(Words(s)) == [s[0]] + "-" + Hyphened(Words(s[1..])) && Trail(s) == Trail(s[1..])
  {
    HyphenedWord([s[0]], Words(s[1..]));
    if Words(s[1..]) == [] {
      NoWords(s[1..]);
    } else {
      hide Hyphened;
    }
  }

  /** The joined words of a text that starts with a word, from those of the text behind its first character. */
  lemma OneMoreLetter(s: string)
    requires s != "" && IsAlnum(s[0])
    ensures Hyphened(Words(s)) + Trail(s) == [s[0]] + (Lead(s[1..]) + Hyphened(Words(s[1..])) + Trail(s[1..]))
  {
    hide Hyphened, Words, Lead, Trail;
    var r := s[1..];
    if r == "" {
      LastLetter(s);
    } else if IsAlnum(s[1]) {
      LetterInWord(s);
      Shift(s[0], Lead(r), Hyphened(Words(r)), Trail(r));
    } else {
      LetterEndsWord(s);
      Shift(s[0], "-", Hyphened(Words(r)), Trail(r));
    }
  }

  /** Collapsing leaves the words joined by hyphens, with one more at each end that had other characters. */
  lemma {:induction false} CollapseJoinsWords(s: string)
    ensures Collapse(s) == Lead(s) + Hyphened(Words(s)) + Trail(s)
    decreases |s|
  {
    if s == "" {
      assert Words(s) == [];
    } else if !IsAlnum(s[0]) {
      var rest := DropRun(s[1..]);
      CollapseJoinsWords(rest);
      WordsAfterRun(s[1..]);
      DropRunEnd(s[1..]);
      assert Words(s) == Words(rest) && Lead(rest) == "" && Trail(s) == Trail(rest);
      assert Collapse(s) == "-" + Collapse(rest);
      hide Collapse, Words, Hyphened, Trail, DropRun;
      Regroup("-", "", Hyphened(Words(rest)), Trail(rest));
    } else {
      CollapseJoinsWords(s[1..]);
      OneMoreLetter(s);
      assert Collapse(s) == [s[0]] + Collapse(s[1..]);
      hide Collapse, Words, Hyphened, Trail;
      Regroup("", "", Hyphened(Words(s)), Trail(s));
    }
  }

  lemma Regroup(a: string, b: string, c: string, d: string)
    ensures a + (b + c + d) == a + b + c + d
    ensures "" + c == c && "" + c + d == c + d && a + "" + c == a + c
  {
  }

  lemma {:induction false} WordsAreAlnum(s: string)
    ensures forall k :: 0 <= k < |Words(s)| ==> Words(s)[k] != "" && forall i :: 0 <= i < |Words(s)[k]| ==> IsAlnum(Words(s)[k][i])
  {
    if s != "" {
      WordsAreAlnum(s[1..]);
    }
  }

  /** Joined words start and end in words. */
  lemma {:induction false} HyphenedEnds(words: seq<string>)
    requires forall k :: 0 <= k < |words| ==> words[k] != "" && forall i :: 0 <= i < |words[k]| ==> IsAlnum(words[k][i])
    ensures var j := Hyphened(words); if words == [] then j == "" else j != "" && IsAlnum(j[0]) && IsAlnum(j[|j| - 1])
  {
    if |words| > 1 {
      assert forall k :: 0 <= k < |words[1..]| ==> words[1..][k] == words[k + 1];
      HyphenedEnds(words[1..]);
    }
  }

  lemma StripLead(lead: string, rest: string)
    requires lead in {"", "-"} && (rest == "" || rest[0] != '-')
    ensures StripLeading(lead + rest) == rest
  {
    if lead == "-" {
      assert (lead + rest)[1..] == rest;
    } else {
      assert lead + rest == rest;
    }
  }

  lemma StripTrail(j: string, trail: string)
    requires trail in {"", "-"} && (j == "" || j[|j| - 1] != '-')
    ensures StripTrailing(j + trail) == j
  {
    if trail == "-" {
      assert (j + trail)[..|j|] == j;
    } else {
      assert j + trail == j;
    }
  }

  lemma StripEnds(lead: string, j: string, trail: string)
    requires lead in {"", "-"} && trail in {"", "-"} && (j == "" ==> trail == "")
    requires j != "" ==> j[0] != '-' && j[|j| - 1] != '-'
    ensures StripTrailing(StripLeading(lead + j + trail)) == j
  {
    hide StripLeading, StripTrailing;
    assert lead + j + trail == lead + (j + trail);
    StripLead(lead, j + trail);
    StripTrail(j, trail);
  }

  /**
   The base of an id is the name's words in order, joined by single hyphens and cut at 55
   characters; a hyphen at the cut is dropped.
   */
  lemma BaseIsWords(name: string)
    ensures var j := Hyphened(Words(name));
      Base(name) == if |j| <= 55 then j else if j[54] == '-' then j[..54] else j[..55]
  {
    var j := Hyphened(Words(name));
    CollapseJoinsWords(name);
    WordsAreAlnum(name);
    HyphenedEnds(Words(name));
    StripEnds(Lead(name), j, Trail(name));
    CollapseHyphenates(name);
    StripLeadingHyphenates(Collapse(name));
    PrefixHyphenates(StripLeading(Collapse(name)), j);
    CutOnce(j);
  }

  lemma CutOnce(j: string)
    requires Hyphenated(j) && (j != "" ==> j[|j| - 1] != '-')
    ensures StripTrailing(Slice(j, MAX_BASE)) == if |j| <= 55 then j else if j[54] == '-' then j[..54] else j[..55]
  {
    if |j| > 55 {
      var cut := j[..55];
      assert cut[54] == j[54] && cut[53] == j[53] && cut[..54] == j[..54];
      if j[54] == '-' {
        assert IsAlnum(j[53]);
      }
    }
  }

  /** The id is the base, or a fallback where the name has no words, and eight characters of the UUID. */
  lemma IdsAreWords(name: string, uuid: string)
    requires |uuid| >= 8 && forall i :: 0 <= i < 8 ==> IsAlnum(uuid[i])
    ensures GeneratedMonitorId(name, uuid) == (if Words(name) == [] then "monitor" else Base(name)) + "-" + uuid[..8]
    ensures GeneratedGroupId(name, uuid) == (if Words(name) == [] then "group" else Base(name)) + "-" + uuid[..8]
  {
    var j := Hyphened(Words(name));
    BaseIsWords(name);
    BaseIsSlug(name);
    WordsAreAlnum(name);
    HyphenedEnds(Words(name));
    assert Base(name) == "" <==> Words(name) == [] by {
      if Words(name) != [] && |j| > 55 {
        assert IsAlnum(j[0]) && Base(name) != "";
      }
    }
    hide Base, Words, Hyphened;
    Uncut(if Base(name) == "" then "monitor" else Base(name), uuid);
    Uncut(if Base(name) == "" then "group" else Base(name), uuid);
  }

  lemma Uncut(prefix: string, uuid: string)
    requires |prefix| <= 55 && |uuid| >= 8
    ensures Slice(prefix + "-" + Slice(uuid, 8), MAX_ID) == prefix + "-" + uuid[..8]
  {
    assert |prefix + "-" + uuid[..8]| <= 64;
    assert uuid[..8] == Slice(uuid, 8);
  }
}
