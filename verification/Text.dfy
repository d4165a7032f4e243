/** `String.prototype.trim` (section 22.1.3.32 of ECMA-262). */
module Text {

  predicate IsSpace(c: char) {
    || '\U{0009}' <= c <= '\U{000D}' || c == ' ' || c == '\U{00A0}' || c == '\U{1680}'
    || '\U{2000}' <= c <= '\U{200A}' || c == '\U{2028}' || c == '\U{2029}'
    || c == '\U{202F}' || c == '\U{205F}' || c == '\U{3000}' || c == '\U{FEFF}'
  }

  function TrimStart(s: string): (r: string)
    ensures r != "" ==> !IsSpace(r[0])
    ensures s != "" && !IsSpace(s[|s| - 1]) ==> r != "" && r[|r| - 1] == s[|s| - 1]
  {
    if s == "" || !IsSpace(s[0]) then s else TrimStart(s[1..])
  }

  function TrimEnd(s: string): (r: string)
    ensures r != "" ==> !IsSpace(r[|r| - 1])
    ensures r <= s
  {
    if s == "" || !IsSpace(s[|s| - 1]) then s else TrimEnd(s[..|s| - 1])
  }

  function Trim(s: string): string {
    TrimStart(TrimEnd(s))
  }

  predicate Blank(s: string) {
    Trim(s) == ""
  }

  /** Trimming leaves nothing to trim. */
  lemma TrimIdempotent(s: string)
    ensures Trim(Trim(s)) == Trim(s)
    ensures Blank(Trim(s)) <==> Blank(s)
  {
    var e := TrimEnd(s);
    if e != "" {
      assert Trim(s)[|Trim(s)| - 1] == e[|e| - 1];
    }
  }

  /** No white space at either end. */
  predicate Tight(s: string) {
    s != "" ==> !IsSpace(s[0]) && !IsSpace(s[|s| - 1])
  }

  /** Trimming keeps exactly the texts without white space at the ends. */
  lemma TrimFixedPoints(s: string)
    ensures Trim(s) == s <==> Tight(s)
  {
    if s != "" && IsSpace(s[|s| - 1]) {
      assert |TrimEnd(s)| < |s|;
      TrimStartShortens(TrimEnd(s));
    }
  }

  lemma {:induction false} TrimStartShortens(s: string)
    ensures |TrimStart(s)| <= |s|
  {
    if s != "" {
      TrimStartShortens(s[1..]);
    }
  }

  ghost predicate AllSpace(s: string) {
    forall i :: 0 <= i < |s| ==> IsSpace(s[i])
  }

  lemma {:induction false} TrimStartDrops(s: string) returns (before: string)
    ensures s == before + TrimStart(s) && AllSpace(before)
  {
    if s == "" || !IsSpace(s[0]) {
      before := "";
    } else {
      var rest := TrimStartDrops(s[1..]);
      before := [s[0]] + rest;
    }
  }

  lemma {:induction false} TrimEndDrops(s: string) returns (after: string)
    ensures s == TrimEnd(s) + after && AllSpace(after)
  {
    if s == "" || !IsSpace(s[|s| - 1]) {
      after := "";
    } else {
      var rest := TrimEndDrops(s[..|s| - 1]);
      after := rest + [s[|s| - 1]];
    }
  }

  /** Trimming takes white space off both ends, nothing else, and all of it. */
  lemma TrimDropsEnds(s: string) returns (before: string, after: string)
    ensures s == before + Trim(s) + after && AllSpace(before) && AllSpace(after) && Tight(Trim(s))
  {
    after := TrimEndDrops(s);
    before := TrimStartDrops(TrimEnd(s));
    TrimIdempotent(s);
    TrimFixedPoints(Trim(s));
  }

  /** A text is blank exactly when it is all white space. */
  lemma BlankIsAllSpace(s: string)
    ensures Blank(s) <==> AllSpace(s)
  {
    var before, after := TrimDropsEnds(s);
    if Blank(s) {
      assert s == before + after;
    } else {
      assert s[|before|] == Trim(s)[0];
    }
  }

  /** The white space and line terminators of ECMA-262 (sections 12.2 and 12.3), by code point. */
  lemma SpaceMeaning(c: char)
    ensures IsSpace(c) <==> c as int in {
      9, 10, 11, 12, 13, 32, 0xA0, 0x1680, 0x2000, 0x2001, 0x2002, 0x2003, 0x2004, 0x2005, 0x2006, 0x2007, 0x2008,
      0x2009, 0x200A, 0x2028, 0x2029, 0x202F, 0x205F, 0x3000, 0xFEFF}
  {
  }
}
