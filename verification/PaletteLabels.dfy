/**
 The command palette's label highlighter: the first occurrence of every typed token is
 collected as a range, overlapping and touching ranges are merged, and the label is
 written out with the merged ranges in bold.
 */
module PaletteLabels {
  import opened Html
  import opened EscapePasses
  import opened Sorting

  datatype Range = Range(start: nat, end: nat)

  predicate OccursAt(text: string, token: string, j: nat) {
    j + |token| <= |text| && text[j..j + |token|] == token
  }

  /** Position of the first occurrence of `token` in `text` at or after `from`, or -1. */
  function IndexOf(text: string, token: string, from: nat): (k: int)
    requires from <= |text|
    ensures k == -1 || (from <= k && OccursAt(text, token, k))
    ensures forall j: nat :: from <= j && (k == -1 || j < k) ==> !OccursAt(text, token, j)
    decreases |text| - from
  {
    if from + |token| > |text| then -1
    else if OccursAt(text, token, from) then from
    else IndexOf(text, token, from + 1)
  }

  /** Some token's first occurrence in the lower-cased label covers position `i`. */
  ghost predicate Hit(lower: string, tokens: seq<string>, i: int) {
    exists t :: 0 <= t < |tokens| && TokenCovers(lower, tokens[t], i)
  }

  predicate TokenCovers(lower: string, token: string, i: int) {
    var k := IndexOf(lower, token, 0);
    0 <= k <= i < k + |token|
  }

  ghost predicate Covered(ranges: seq<Range>, i: int) {
    exists r :: 0 <= r < |ranges| && ranges[r].start <= i < ranges[r].end
  }

  predicate Proper(ranges: seq<Range>) {
    forall r :: 0 <= r < |ranges| ==> ranges[r].start <= ranges[r].end
  }

  /** In order, disjoint, and with at least one uncovered position between neighbours. */
  predicate Separated(ranges: seq<Range>) {
    forall p, q :: 0 <= p < q < |ranges| ==> ranges[p].end < ranges[q].start
  }

  predicate StartsSorted(ranges: seq<Range>) {
    forall p, q :: 0 <= p < q < |ranges| ==> ranges[p].start <= ranges[q].start
  }

  function ByStart(): (Range, Range) -> int {
    (a: Range, b: Range) => a.start - b.start
  }

  function Max(a: nat, b: nat): nat {
    if a < b then b else a
  }

  /** `slice` clamps its bounds to the text. */
  function Slice(s: string, start: nat, end: nat): string {
    var last := if end < |s| then end else |s|;
    if start < last then s[start..last] else ""
  }

  /** What a reader should see: the label, bold exactly where a token's first occurrence is. */
  ghost function Bolded(caption: string, lower: string, tokens: seq<string>): seq<Glyph> {
    seq(|caption|, i requires 0 <= i < |caption| => Glyph(caption[i], if Hit(lower, tokens, i) then "b" else ""))
  }

  /** The collecting loop. */
  method CollectHits(lower: string, tokens: seq<string>) returns (ranges: seq<Range>)
    ensures Proper(ranges)
    ensures forall i :: Covered(ranges, i) <==> Hit(lower, tokens, i)
    ensures ranges == [] <==> forall t :: 0 <= t < |tokens| ==> IndexOf(lower, tokens[t], 0) == -1
  {
    ranges := [];
    for t := 0 to |tokens|
      invariant Proper(ranges)
      invariant forall i :: Covered(ranges, i) <==> Hit(lower, tokens[..t], i)
      invariant ranges == [] <==> forall u :: 0 <= u < t ==> IndexOf(lower, tokens[u], 0) == -1
    {
      var index := IndexOf(lower, tokens[t], 0);
      forall i ensures Hit(lower, tokens[..t + 1], i) <==>
                       Hit(lower, tokens[..t], i) || TokenCovers(lower, tokens[t], i) {
        HitOneMore(lower, tokens, t, i);
      }
      if index >= 0 {
        var range := Range(index, index + |tokens[t]|);
        forall i ensures Covered(ranges + [range], i) <==> Covered(ranges, i) || TokenCovers(lower, tokens[t], i) {
          CoveredOneMore(ranges, range, i);
        }
        ranges := ranges + [range];
      } else {
        assert forall i :: !TokenCovers(lower, tokens[t], i);
      }
    }
    assert tokens[..|tokens|] == tokens;
  }

  lemma HitOneMore(lower: string, tokens: seq<string>, t: nat, i: int)
    requires t < |tokens|
    ensures Hit(lower, tokens[..t + 1], i) <==>
            Hit(lower, tokens[..t], i) || TokenCovers(lower, tokens[t], i)
  {
    hide TokenCovers;
    if Hit(lower, tokens[..t], i) {
      var u :| 0 <= u < t && TokenCovers(lower, tokens[..t][u], i);
      assert tokens[..t + 1][u] == tokens[u];
    }
    assert tokens[..t + 1][t] == tokens[t];
    if Hit(lower, tokens[..t + 1], i) {
      var u :| 0 <= u < t + 1 && TokenCovers(lower, tokens[..t + 1][u], i);
      assert u < t ==> tokens[..t][u] == tokens[u];
    }
  }

  lemma CoveredOneMore(ranges: seq<Range>, range: Range, i: int)
    ensures Covered(ranges + [range], i) <==> Covered(ranges, i) || range.start <= i < range.end
  {
    var all := ranges + [range];
    assert all[|ranges|] == range;
    if Covered(ranges, i) {
      var r :| 0 <= r < |ranges| && ranges[r].start <= i < ranges[r].end;
      assert all[r] == ranges[r];
    }
  }

  /** The merging loop: a range that reaches the last kept one extends it in place. */
  method MergeRanges(ranges: seq<Range>) returns (merged: seq<Range>)
    requires ranges != [] && Proper(ranges) && StartsSorted(ranges)
    ensures merged != [] && Proper(merged) && Separated(merged)
    ensures forall i :: Covered(merged, i) <==> Covered(ranges, i)
  {
    merged := [ranges[0]];
    assert ranges[..1] == [ranges[0]];
    for k := 1 to |ranges|
      invariant merged != [] && Proper(merged) && Separated(merged)
      invariant merged[|merged| - 1].start <= ranges[k - 1].start
      invariant forall i :: Covered(merged, i) <==> Covered(ranges[..k], i)
    {
      var last := merged[|merged| - 1];
      var next := ranges[k];
      assert ranges[..k + 1] == ranges[..k] + [next];
      forall i { CoveredOneMore(ranges[..k], next, i); }
      if next.start <= last.end {
        forall i { CoveredExtended(merged, next, i); }
        merged := merged[|merged| - 1 := Range(last.start, Max(last.end, next.end))];
      } else {
        forall i { CoveredOneMore(merged, next, i); }
        merged := merged + [next];
      }
    }
    assert ranges[..|ranges|] == ranges;
  }

  /** Extending the last range over a range that reaches it covers exactly the two. */
  lemma CoveredExtended(merged: seq<Range>, next: Range, i: int)
    requires merged != [] && Proper(merged)
    requires merged[|merged| - 1].start <= next.start <= merged[|merged| - 1].end
    requires next.start <= next.end
    ensures var n := |merged| - 1;
      Covered(merged[n := Range(merged[n].start, Max(merged[n].end, next.end))], i) <==>
      (Covered(merged, i) || next.start <= i < next.end)
  {
    var n := |merged| - 1;
    var all := merged[n := Range(merged[n].start, Max(merged[n].end, next.end))];
    if Covered(all, i) {
      var r :| 0 <= r < |all| && all[r].start <= i < all[r].end;
      assert r < n ==> merged[r] == all[r];
      assert merged[n].start <= i < merged[n].end || r < n || next.start <= i < next.end;
    }
    if Covered(merged, i) {
      var r :| 0 <= r < |merged| && merged[r].start <= i < merged[r].end;
      assert r < n ==> all[r] == merged[r];
      assert all[n].start <= i < all[n].end || r < n;
    }
    if next.start <= i < next.end {
      assert all[n].start <= i < all[n].end;
    }
  }

  /** The text of the writing loop from `cursor` on. */
  function LabelHtml(caption: string, cursor: nat, ranges: seq<Range>): string
    decreases |ranges|
  {
    if ranges == [] then EscapeHtml(Slice(caption, cursor, |caption|))
    else
      EscapeHtml(Slice(caption, cursor, ranges[0].start)) + "<b>"
      + EscapeHtml(Slice(caption, ranges[0].start, ranges[0].end)) + "</b>"
      + LabelHtml(caption, ranges[0].end, ranges[1..])
  }

  ghost function Shown(caption: string, cursor: nat, ranges: seq<Range>): seq<Glyph>
    requires cursor <= |caption|
  {
    seq(|caption| - cursor, i requires 0 <= i < |caption| - cursor =>
      Glyph(caption[cursor + i], if Covered(ranges, cursor + i) then "b" else ""))
  }

  function Clamp(caption: string, i: nat): nat {
    if i < |caption| then i else |caption|
  }

  /** The written label is displayed whole, with the ranges in bold, wherever they end. */
  lemma {:induction false} RenderLabel(caption: string, cursor: nat, ranges: seq<Range>)
    requires Proper(ranges) && Separated(ranges)
    requires ranges != [] ==> cursor <= ranges[0].start
    ensures Render(LabelHtml(caption, cursor, ranges), "") == Shown(caption, Clamp(caption, cursor), ranges)
    decreases |ranges|
  {
    if ranges == [] {
      var tail := Slice(caption, cursor, |caption|);
      RenderPiece(tail, "", "");
      assert EscapeHtml(tail) + "" == EscapeHtml(tail);
      assert Render("", "") == [];
      assert tail == caption[Clamp(caption, cursor)..];
      assert forall i :: !Covered([], i);
      assert Plain(tail, "") + [] == Shown(caption, Clamp(caption, cursor), ranges);
    } else {
      var r, rest := ranges[0], LabelHtml(caption, ranges[0].end, ranges[1..]);
      var before, bold := Slice(caption, cursor, r.start), Slice(caption, r.start, r.end);
      RenderLabel(caption, r.end, ranges[1..]);
      RenderBold(before, bold, rest);
      ShowRange(caption, cursor, ranges);
    }
  }

  lemma RenderPiece(s: string, rest: string, style: string)
    ensures Render(EscapeHtml(s) + rest, style) == Plain(s, style) + Render(rest, style)
  {
    hide Render, Escape, EscapeHtml;
    PassesAreOnePass(s);
    RenderEscaped(s, APOSTROPHE, rest, style);
  }

  lemma RenderBold(before: string, bold: string, rest: string)
    ensures Render(EscapeHtml(before) + "<b>" + EscapeHtml(bold) + "</b>" + rest, "")
         == Plain(before, "") + (Plain(bold, "b") + Render(rest, ""))
  {
    hide Render, EscapeHtml, Plain;
    var close := "<" + "/b" + ">" + rest;
    var open := "<" + "b" + ">" + (EscapeHtml(bold) + close);
    assert EscapeHtml(before) + "<b>" + EscapeHtml(bold) + "</b>" + rest == EscapeHtml(before) + open;
    RenderPiece(before, open, "");
    assert "b"[0] != '/' && "/b"[..1] == "/";
    RenderTag("b", EscapeHtml(bold) + close, "");
    RenderPiece(bold, close, "b");
    RenderTag("/b", rest, "b");
  }

  lemma ShowRange(caption: string, cursor: nat, ranges: seq<Range>)
    requires ranges != [] && Proper(ranges) && Separated(ranges) && cursor <= ranges[0].start
    ensures Shown(caption, Clamp(caption, cursor), ranges)
         == Plain(Slice(caption, cursor, ranges[0].start), "")
            + (Plain(Slice(caption, ranges[0].start, ranges[0].end), "b")
               + Shown(caption, Clamp(caption, ranges[0].end), ranges[1..]))
  {
    var r := ranges[0];
    var c, s, e := Clamp(caption, cursor), Clamp(caption, r.start), Clamp(caption, r.end);
    var left, right := Shown(caption, c, ranges), Shown(caption, e, ranges[1..]);
    forall k | 0 <= k < |left|
      ensures left[k] == if e - c <= k then right[k - (e - c)] else Glyph(caption[c + k], if s - c <= k then "b" else "")
    {
      CoveredFromFirst(ranges, c + k);
      assert e + (k - (e - c)) == c + k;
    }
    ThreeParts(caption, c, s, e, left, right);
  }

  lemma ThreeParts(caption: string, c: nat, s: nat, e: nat, left: seq<Glyph>, right: seq<Glyph>)
    requires c <= s <= e <= |caption| && |left| == |caption| - c && |right| == |caption| - e
    requires forall k :: 0 <= k < |left| ==>
      left[k] == if e - c <= k then right[k - (e - c)] else Glyph(caption[c + k], if s - c <= k then "b" else "")
    ensures left == Plain(caption[c..s], "") + (Plain(caption[s..e], "b") + right)
  {
  }

  /** Later ranges lie strictly behind the first one. */
  lemma CoveredFromFirst(ranges: seq<Range>, i: int)
    requires ranges != [] && Separated(ranges)
    ensures Covered(ranges, i) <==>
            (ranges[0].start <= i < ranges[0].end || (ranges[0].end <= i && Covered(ranges[1..], i)))
  {
    if Covered(ranges, i) {
      var r :| 0 <= r < |ranges| && ranges[r].start <= i < ranges[r].end;
      if r > 0 {
        assert ranges[1..][r - 1] == ranges[r];
      }
    }
    if Covered(ranges[1..], i) {
      var r :| 0 <= r < |ranges[1..]| && ranges[1..][r].start <= i < ranges[1..][r].end;
      assert ranges[r + 1] == ranges[1..][r];
    }
  }

  /**
   `highlightLabel`. `lower` is the lower-cased caption; lower-casing may change the number of
   characters, and then the positions found in `lower` are used on the caption as they are.
   */
  method HighlightLabel(caption: string, lower: string, tokens: seq<string>) returns (html: string)
    ensures Render(html, "") == Bolded(caption, lower, tokens)
    ensures TextOf(Render(html, "")) == caption
  {
    hide Render, EscapeHtml, IndexOf, TokenCovers;
    BoldedText(caption, lower, tokens);
    var ranges := CollectHits(lower, tokens);
    if ranges == [] {
      html := EscapeHtml(caption);
      NoHits(caption, lower, tokens);
      return;
    }
    var sorted := Sort(ByStart(), ranges);
    SortRanges(ranges);
    var merged := MergeRanges(sorted);
    html := "";
    var cursor := 0;
    var k := 0;
    ghost var whole := LabelHtml(caption, 0, merged);
    while k < |merged|
      invariant k <= |merged|
      invariant html + LabelHtml(caption, cursor, merged[k..]) == whole
    {
      var range := merged[k];
      WriteRange(caption, cursor, merged, k, html);
      html := html + EscapeHtml(Slice(caption, cursor, range.start)) + "<b>"
              + EscapeHtml(Slice(caption, range.start, range.end)) + "</b>";
      cursor := range.end;
      k := k + 1;
    }
    html := html + EscapeHtml(Slice(caption, cursor, |caption|));
    assert html == whole;
    RenderLabel(caption, 0, merged);
    assert Shown(caption, 0, merged) == Bolded(caption, lower, tokens);
  }

  lemma WriteRange(caption: string, cursor: nat, merged: seq<Range>, k: nat, html: string)
    requires k < |merged|
    ensures var r := merged[k];
      html + EscapeHtml(Slice(caption, cursor, r.start)) + "<b>" + EscapeHtml(Slice(caption, r.start, r.end)) + "</b>"
      + LabelHtml(caption, r.end, merged[k + 1..])
      == html + LabelHtml(caption, cursor, merged[k..])
  {
    hide EscapeHtml, Slice;
    assert merged[k..][0] == merged[k] && merged[k..][1..] == merged[k + 1..];
  }

  lemma SortRanges(ranges: seq<Range>)
    ensures var sorted := Sort(ByStart(), ranges);
      && StartsSorted(sorted)
      && (Proper(ranges) ==> Proper(sorted))
      && forall i :: Covered(sorted, i) <==> Covered(ranges, i)
  {
    var sorted := Sort(ByStart(), ranges);
    SortSorts(ByStart(), ranges, Elements(ranges));
    SortPermutes(ByStart(), ranges);
    SameElements(sorted, ranges);
    hide Sort;
    forall p | 0 <= p < |sorted| ensures sorted[p] in ranges {
      assert sorted[p] in Elements(sorted);
    }
    forall p | 0 <= p < |ranges| ensures ranges[p] in sorted {
      assert ranges[p] in Elements(ranges);
    }
  }

  lemma NoHits(caption: string, lower: string, tokens: seq<string>)
    requires forall i :: !Hit(lower, tokens, i)
    ensures Render(EscapeHtml(caption), "") == Bolded(caption, lower, tokens)
  {
    hide EscapeHtml, Hit;
    RenderPiece(caption, "", "");
    assert EscapeHtml(caption) + "" == EscapeHtml(caption);
    assert Render("", "") == [];
    assert Plain(caption, "") + [] == Bolded(caption, lower, tokens);
  }

  /** Highlighting never changes the label's text. */
  lemma BoldedText(caption: string, lower: string, tokens: seq<string>)
    ensures TextOf(Bolded(caption, lower, tokens)) == caption
  {
  }
}
