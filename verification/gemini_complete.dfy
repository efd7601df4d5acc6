/**
 * `parseCompleteResponse`: the one-call reply of the complete assistant, cut into its summary, tags
 * and SEO sections by their header lines, each section read by its own parser.
 */
module GeminiComplete {
  import opened Wrappers
  import opened Seqs
  import opened Text
  import opened GeminiService
  import opened GeminiSeo
  import opened ArticleModel

  /** What the complete assistant returns. */
  datatype GeminiOutput = GeminiOutput(summary: seq<string>, tags: seq<string>, seo: Seo)

  /** The header lines the prompt asks for, each with its line break. */
  const SummaryHeader: string := "---SUMMARY---\n"
  const TagsHeader: string := "---TAGS---\n"
  const SeoHeader: string := "---SEO---\n"

  /** The look-aheads that end the summary and the tags sections. */
  const TagsStop: string := "---TAGS---"
  const SeoStop: string := "---SEO---"

  /** The leftmost index where `marker` is written: where an unanchored pattern starting with it matches. */
  function IndexOf(s: string, marker: string): (r: Option<nat>)
    ensures r.Some? ==> OccursAt(s, marker, r.value)
    ensures r.Some? ==> forall k :: 0 <= k < r.value ==> !OccursAt(s, marker, k)
    ensures r.None? <==> forall k :: 0 <= k <= |s| ==> !OccursAt(s, marker, k)
  {
    var p := (k: nat) => OccursAt(s, marker, k);
    assert forall k :: 0 <= k ==> (p(k) <==> OccursAt(s, marker, k));
    FirstFrom(p, 0, |s|)
  }

  /**
   * The end of the lazy `[\s\S]*?` that starts at `p` and is followed by `(?=stop|$)`: the first
   * index from `p` on where `stop` is written, or the end of the input.
   */
  function SectionEnd(s: string, stop: string, p: nat): (e: nat)
    requires p <= |s|
    ensures p <= e <= |s|
    decreases |s| - p
  {
    if p == |s| || OccursAt(s, stop, p) then p else SectionEnd(s, stop, p + 1)
  }

  /** The section ends at the first `stop` or at the end, and nowhere before. */
  lemma {:induction false} SectionEndSpec(s: string, stop: string, p: nat)
    requires p <= |s|
    ensures var e := SectionEnd(s, stop, p);
      && (e == |s| || OccursAt(s, stop, e))
      && forall k :: p <= k < e ==> !OccursAt(s, stop, k)
    decreases |s| - p
  {
    if p < |s| && !OccursAt(s, stop, p) {
      SectionEndSpec(s, stop, p + 1);
    }
  }

  /** Where no `stop` is written before `m`, the section runs to `m` if `stop` (or the end) is there. */
  lemma {:induction false} SectionEndAt(s: string, stop: string, p: nat, m: nat)
    requires p <= m <= |s|
    requires forall k :: p <= k < m ==> !OccursAt(s, stop, k)
    requires m == |s| || OccursAt(s, stop, m)
    ensures SectionEnd(s, stop, p) == m
    decreases m - p
  {
    if p < m {
      SectionEndAt(s, stop, p + 1, m);
    }
  }

  /**
   * `s.match(/HEADER([\s\S]*?)(?=STOP|$)/)?.[1]`, or with `stop` absent `/HEADER([\s\S]*?)$/`:
   * the text after the first header up to the first stop after it, or to the end.
   */
  function Section(s: string, header: string, stop: Option<string>): (r: Option<string>)
    ensures r.None? <==> forall k :: 0 <= k <= |s| ==> !OccursAt(s, header, k)
  {
    match IndexOf(s, header)
    case None => None
    case Some(i) =>
      var from := i + |header|;
      Some(s[from..if stop.Some? then SectionEnd(s, stop.value, from) else |s|])
  }

  /** `parseCompleteResponse`: each section that is present, read by its parser; a missing one is empty. */
  function ParseComplete(response: string): (r: GeminiOutput)
    ensures |r.summary| <= SummaryLimit && |r.tags| <= TagLimit
    ensures (forall k :: 0 <= k <= |response| ==> !OccursAt(response, SummaryHeader, k)) ==> r.summary == []
    ensures (forall k :: 0 <= k <= |response| ==> !OccursAt(response, TagsHeader, k)) ==> r.tags == []
    ensures (forall k :: 0 <= k <= |response| ==> !OccursAt(response, SeoHeader, k)) ==> r.seo == EmptySeo
  {
    var summary := Section(response, SummaryHeader, Some(TagsStop));
    var tags := Section(response, TagsHeader, Some(SeoStop));
    var seo := Section(response, SeoHeader, None);
    GeminiOutput(
      if summary.Some? then ParseSummary(summary.value) else [],
      if tags.Some? then ParseTags(tags.value) else [],
      if seo.Some? then ParseSEO(seo.value) else EmptySeo)
  }

  // ---------------------------------------------------------------------------------------------
  // The reply in the requested format
  // ---------------------------------------------------------------------------------------------

  /** The summary block: the bulleted points and the blank line before the next header. */
  function SummaryBlock(points: seq<string>): string {
    RenderSummary(points) + "\n"
  }

  /** The tags block: the joined list and the blank line before the next header. */
  function TagsBlock(tags: seq<string>): string {
    JoinList(tags) + "\n\n"
  }

  /** Three section bodies under their headers, in order. */
  function Assemble(a: string, b: string, c: string): string {
    SummaryHeader + (a + (TagsHeader + (b + (SeoHeader + c))))
  }

  /** The reply format the complete prompt asks for: three headed sections in order. */
  function RenderComplete(out: GeminiOutput): string {
    Assemble(SummaryBlock(out.summary), TagsBlock(out.tags), RenderSeo(out.seo))
  }

  /** A text that cannot hold a header: no dash. */
  predicate DashFree(x: string) {
    NoneOf(x, IsDash)
  }

  /** The outputs a reply can carry back: each part as its own round trip needs, without dashes. */
  predicate OutputOk(out: GeminiOutput) {
    && |out.summary| <= SummaryLimit
    && (forall i :: 0 <= i < |out.summary| ==> PointOk(out.summary[i]) && DashFree(out.summary[i]))
    && |out.tags| <= TagLimit
    && (forall i :: 0 <= i < |out.tags| ==> ItemOk(out.tags[i]) && DashFree(out.tags[i]) && NoneOf(out.tags[i], IsColon))
    && SeoOk(out.seo)
  }

  /** The two halves of a concatenation are written where they stand. */
  lemma PlacedHalves(x: string, y: string)
    ensures OccursAt(x + y, x, 0) && OccursAt(x + y, y, |x|)
  {
  }

  /** What is written inside a text written in `s` is written in `s`. */
  lemma PlacedWithin(s: string, i: nat, t: string, j: nat, x: string)
    requires OccursAt(s, t, i) && OccursAt(t, x, j)
    ensures OccursAt(s, x, i + j)
  {
    forall m | 0 <= m < |x| ensures s[i + j + m] == x[m] {
      assert x[m] == t[j + m] == s[i..i + |t|][j + m];
    }
    assert s[i + j..i + j + |x|] == x;
  }

  /** No header starts inside a dash-free text. */
  lemma DashFreeRegion(s: string, i: nat, x: string, marker: string)
    requires OccursAt(s, x, i) && DashFree(x)
    requires marker != [] && IsDash(marker[0])
    ensures forall k :: i <= k < i + |x| ==> !OccursAt(s, marker, k)
  {
    forall k | i <= k < i + |x| ensures !OccursAt(s, marker, k) {
      assert s[k] == s[i..i + |x|][k - i];
      if k + |marker| <= |s| {
        assert s[k..k + |marker|][0] == s[k];
      }
    }
  }

  /** Starting at `j` in `h`, `marker` differs from `h` at its `m`-th character. */
  predicate ClashAt(h: string, marker: string, j: nat, m: nat) {
    m < |marker| && j + m < |h| && h[j + m] != marker[m]
  }

  /** Starting at `j` in `h`, `marker` differs from `h` somewhere inside `h`. */
  ghost predicate HasClash(h: string, marker: string, j: nat) {
    exists m: nat :: ClashAt(h, marker, j, m)
  }

  /** `marker` cannot start anywhere inside `h`, whatever follows `h`. */
  ghost predicate Clashes(h: string, marker: string) {
    forall j: nat :: j < |h| ==> HasClash(h, marker, j)
  }

  /** No header starts inside a header that clashes with it. */
  lemma ClashRegion(s: string, i: nat, h: string, marker: string)
    requires OccursAt(s, h, i) && Clashes(h, marker)
    ensures forall k :: i <= k < i + |h| ==> !OccursAt(s, marker, k)
  {
    forall k | i <= k < i + |h| ensures !OccursAt(s, marker, k) {
      var j: nat := k - i;
      assert HasClash(h, marker, j);
      var m: nat :| ClashAt(h, marker, j, m);
      assert s[k + m] == s[i..i + |h|][j + m];
      if k + |marker| <= |s| {
        assert s[k..k + |marker|][m] == s[k + m];
      }
    }
  }

  /**
   * A header `---NAME---\n` clashes with every other header: at a dash the marker differs within
   * three characters, at the start within the name.
   */
  lemma HeadersClash()
    ensures Clashes(SummaryHeader, TagsHeader) && Clashes(SummaryHeader, SeoHeader)
    ensures Clashes(TagsHeader, SeoHeader)
  {
    forall j: nat | j < |SummaryHeader| ensures HasClash(SummaryHeader, TagsHeader, j) {
      HeaderClashAt(SummaryHeader, TagsHeader, j);
    }
    forall j: nat | j < |SummaryHeader| ensures HasClash(SummaryHeader, SeoHeader, j) {
      HeaderClashAt(SummaryHeader, SeoHeader, j);
    }
    forall j: nat | j < |TagsHeader| ensures HasClash(TagsHeader, SeoHeader, j) {
      HeaderClashAt(TagsHeader, SeoHeader, j);
    }
  }

  /** One position of one header against another. */
  lemma HeaderClashAt(h: string, marker: string, j: nat)
    requires (h, marker) in {(SummaryHeader, TagsHeader), (SummaryHeader, SeoHeader), (TagsHeader, SeoHeader)}
    requires j < |h|
    ensures HasClash(h, marker, j)
  {
    if !IsDash(h[j]) {
      assert ClashAt(h, marker, j, 0);
    } else if !IsDash(h[j + 1]) {
      assert ClashAt(h, marker, j, 1);
    } else if !IsDash(h[j + 2]) {
      assert ClashAt(h, marker, j, 2);
    } else if h[j + 3] != marker[3] {
      assert ClashAt(h, marker, j, 3);
    } else {
      assert ClashAt(h, marker, j, 4);
    }
  }

  /** The two halves of a text written in `s` are written one after the other. */
  lemma PlacedSplit(s: string, i: nat, x: string, y: string)
    requires OccursAt(s, x + y, i)
    ensures OccursAt(s, x, i) && OccursAt(s, y, i + |x|)
  {
    PlacedHalves(x, y);
    PlacedWithin(s, i, x + y, 0, x);
    PlacedWithin(s, i, x + y, |x|, y);
  }

  /** Where each part of an assembled reply is written. */
  lemma AssembleLayout(a: string, b: string, c: string)
    ensures var s := Assemble(a, b, c);
      var a1 := |SummaryHeader| + |a|;
      var b0 := a1 + |TagsHeader|;
      var b1 := b0 + |b|;
      && OccursAt(s, SummaryHeader, 0)
      && OccursAt(s, a, |SummaryHeader|)
      && OccursAt(s, TagsHeader, a1) && OccursAt(s, TagsStop, a1)
      && OccursAt(s, b, b0)
      && OccursAt(s, SeoHeader, b1) && OccursAt(s, SeoStop, b1)
      && b1 + |SeoHeader| + |c| == |s|
  {
    var r4 := SeoHeader + c;
    var r3 := b + r4;
    var r2 := TagsHeader + r3;
    var r1 := a + r2;
    var s := SummaryHeader + r1;
    var a1 := |SummaryHeader| + |a|;
    var b0 := a1 + |TagsHeader|;
    var b1 := b0 + |b|;
    assert OccursAt(s, s, 0);
    PlacedSplit(s, 0, SummaryHeader, r1);
    PlacedSplit(s, |SummaryHeader|, a, r2);
    PlacedSplit(s, a1, TagsHeader, r3);
    PlacedSplit(s, b0, b, r4);
    PlacedSplit(s, b1, SeoHeader, c);
    assert TagsHeader == TagsStop + "\n";
    PlacedSplit(s, a1, TagsStop, "\n");
    assert SeoHeader == SeoStop + "\n";
    PlacedSplit(s, b1, SeoStop, "\n");
  }

  /** A rendered summary keeps out every class of character that excludes the bullet, the space and the line break. */
  lemma {:induction false} RenderSummaryFree(points: seq<string>, p: char -> bool)
    requires !p('\U{2022}') && !p(' ') && !p('\n')
    requires forall i :: 0 <= i < |points| ==> NoneOf(points[i], p)
    ensures NoneOf(RenderSummary(points), p)
    decreases |points|
  {
    if points != [] {
      RenderSummaryFree(points[1..], p);
      var line := Bulleted(points[0]);
      var rest := RenderSummary(points[1..]);
      var s := line + "\n" + rest;
      forall k | 0 <= k < |s| ensures !p(s[k]) {
        if 2 <= k < |line| { assert s[k] == points[0][k - 2]; }
        else if k > |line| { assert s[k] == rest[k - |line| - 1]; }
      }
    }
  }

  /** The summary block holds no header and gives back its points. */
  lemma SummaryBlockRoundTrip(points: seq<string>)
    requires |points| <= SummaryLimit
    requires forall i :: 0 <= i < |points| ==> PointOk(points[i]) && DashFree(points[i])
    ensures DashFree(SummaryBlock(points))
    ensures ParseSummary(SummaryBlock(points)) == points
  {
    var block := SummaryBlock(points);
    assert DashFree(block) by {
      var r := RenderSummary(points);
      RenderSummaryFree(points, IsDash);
      forall k | 0 <= k < |block| ensures !IsDash(block[k]) {
        if k < |r| { assert block[k] == r[k]; }
      }
    }
    assert Split(block, IsNewline) == Map(Bulleted, points) + ["", ""] by {
      SplitRenderSummary(points, "\n");
      assert "\n" == [] + ['\n'] + [];
      SplitAtSeparator([], '\n', [], IsNewline);
      SplitNoSeparator([], IsNewline);
    }
    assert SummaryItems(Map(Bulleted, points) + ["", ""]) == points by {
      SummaryItemsOfBulleted(points, ["", ""]);
      SummaryItemsCons("", [""]);
      SummaryItemsCons("", []);
      assert points + [] == points;
    }
  }

  /** The tags block holds no header and gives back its tags. */
  lemma TagsBlockRoundTrip(tags: seq<string>)
    requires |tags| <= TagLimit
    requires forall i :: 0 <= i < |tags| ==> ItemOk(tags[i]) && DashFree(tags[i]) && NoneOf(tags[i], IsColon)
    ensures DashFree(TagsBlock(tags))
    ensures ParseTags(TagsBlock(tags)) == tags
  {
    var b := TagsBlock(tags);
    var j := JoinList(tags);
    if tags != [] {
      JoinFromFree(tags, IsDash);
      JoinFromFree(tags, IsColon);
    }
    assert DashFree(b) && NoneOf(b, IsColon) by {
      forall k | 0 <= k < |b| ensures !IsDash(b[k]) && !IsColon(b[k]) {
        if k < |j| { assert b[k] == j[k]; }
      }
    }
    NoColonNoLabel(b);
    SplitListJoin(tags, "\n\n");
  }

  /** The first index of `marker` is `i` when it is written there and nowhere before. */
  lemma IndexOfAt(s: string, marker: string, i: nat)
    requires OccursAt(s, marker, i)
    requires forall k :: 0 <= k < i ==> !OccursAt(s, marker, k)
    ensures IndexOf(s, marker) == Some(i)
  {
    var r := IndexOf(s, marker);
    assert r.Some? by {
      assert i <= |s|;
    }
    assert !(r.value < i) by {
      assert OccursAt(s, marker, r.value);
    }
  }

  /** The summary section of an assembled reply is its first body. */
  lemma SummarySectionOf(a: string, b: string, c: string)
    requires DashFree(a)
    ensures Section(Assemble(a, b, c), SummaryHeader, Some(TagsStop)) == Some(a)
  {
    var s := Assemble(a, b, c);
    var a0 := |SummaryHeader|;
    var a1 := a0 + |a|;
    assert OccursAt(s, SummaryHeader, 0) && OccursAt(s, a, a0) && OccursAt(s, TagsStop, a1) by {
      AssembleLayout(a, b, c);
    }
    IndexOfAt(s, SummaryHeader, 0);
    DashFreeRegion(s, a0, a, TagsStop);
    SectionEndAt(s, TagsStop, a0, a1);
    assert s[a0..a1] == a;
  }

  /** The tags section of an assembled reply is its second body. */
  lemma TagsSectionOf(a: string, b: string, c: string)
    requires DashFree(a) && DashFree(b)
    ensures Section(Assemble(a, b, c), TagsHeader, Some(SeoStop)) == Some(b)
  {
    var s := Assemble(a, b, c);
    var a0 := |SummaryHeader|;
    var a1 := a0 + |a|;
    var b0 := a1 + |TagsHeader|;
    var b1 := b0 + |b|;
    assert OccursAt(s, SummaryHeader, 0) && OccursAt(s, a, a0) && OccursAt(s, TagsHeader, a1)
      && OccursAt(s, b, b0) && OccursAt(s, SeoStop, b1) by {
      AssembleLayout(a, b, c);
    }
    assert forall k :: 0 <= k < a1 ==> !OccursAt(s, TagsHeader, k) by {
      HeadersClash();
      ClashRegion(s, 0, SummaryHeader, TagsHeader);
      DashFreeRegion(s, a0, a, TagsHeader);
    }
    IndexOfAt(s, TagsHeader, a1);
    DashFreeRegion(s, b0, b, SeoStop);
    SectionEndAt(s, SeoStop, b0, b1);
    assert s[b0..b1] == b;
  }

  /** The first SEO header of an assembled reply is its own. */
  lemma SeoHeaderFirst(a: string, b: string, c: string)
    requires DashFree(a) && DashFree(b)
    ensures IndexOf(Assemble(a, b, c), SeoHeader) == Some(|SummaryHeader| + |a| + |TagsHeader| + |b|)
  {
    var s := Assemble(a, b, c);
    var a0 := |SummaryHeader|;
    var a1 := a0 + |a|;
    var b0 := a1 + |TagsHeader|;
    var b1 := b0 + |b|;
    assert OccursAt(s, SummaryHeader, 0) && OccursAt(s, a, a0) && OccursAt(s, TagsHeader, a1)
      && OccursAt(s, b, b0) && OccursAt(s, SeoHeader, b1) by {
      AssembleLayout(a, b, c);
    }
    assert forall k :: 0 <= k < b1 ==> !OccursAt(s, SeoHeader, k) by {
      HeadersClash();
      ClashRegion(s, 0, SummaryHeader, SeoHeader);
      DashFreeRegion(s, a0, a, SeoHeader);
      ClashRegion(s, a1, TagsHeader, SeoHeader);
      DashFreeRegion(s, b0, b, SeoHeader);
    }
    IndexOfAt(s, SeoHeader, b1);
  }

  /** The SEO section of an assembled reply is its third body. */
  lemma SeoSectionOf(a: string, b: string, c: string)
    requires DashFree(a) && DashFree(b)
    ensures Section(Assemble(a, b, c), SeoHeader, None) == Some(c)
  {
    var s := Assemble(a, b, c);
    var b1 := |SummaryHeader| + |a| + |TagsHeader| + |b|;
    SeoHeaderFirst(a, b, c);
    assert s == (SummaryHeader + (a + (TagsHeader + b))) + (SeoHeader + c) by {
      AppendAssoc(b, SeoHeader, c);
      AppendAssoc(TagsHeader, b, SeoHeader + c);
      AppendAssoc(a, TagsHeader + b, SeoHeader + c);
      AppendAssoc(SummaryHeader, a + (TagsHeader + b), SeoHeader + c);
    }
    assert |s| == b1 + |SeoHeader| + |c|;
    assert s[b1 + |SeoHeader|..|s|] == c;
  }

  /** A reply in the requested format, with parts each parser can carry back, parses back to them. */
  lemma CompleteRoundTrip(out: GeminiOutput)
    requires OutputOk(out)
    ensures ParseComplete(RenderComplete(out)) == out
  {
    var r := ParseComplete(RenderComplete(out));
    SummaryBlockRoundTrip(out.summary);
    TagsBlockRoundTrip(out.tags);
    var a := SummaryBlock(out.summary);
    var b := TagsBlock(out.tags);
    var c := RenderSeo(out.seo);
    assert r.summary == out.summary by { SummarySectionOf(a, b, c); }
    assert r.tags == out.tags by { TagsSectionOf(a, b, c); }
    assert r.seo == out.seo by {
      SeoSectionOf(a, b, c);
      SeoRoundTrip(out.seo);
    }
  }
}
