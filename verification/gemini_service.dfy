/**
 * The Gemini service: the prompts it sends, the direction of a translation, and the parsers that turn
 * the model's free text into a summary, tags and SEO metadata. The network call and its retries are
 * a parameter: `Ask` gives the reply to a prompt, or nothing when every attempt failed.
 */
module GeminiService {
  import opened Wrappers
  import opened Seqs
  import opened Text

  predicate IsNewline(c: char) { c == '\n' }

  predicate IsColon(c: char) { c == ':' }

  predicate IsDash(c: char) { c == '-' }

  predicate NonEmpty(s: string) { s != [] }

  // ---------------------------------------------------------------------------------------------
  // parseSummary
  // ---------------------------------------------------------------------------------------------

  /** The bullet markers `[•\-*]`. */
  predicate IsBullet(c: char) { c == '\U{2022}' || c == '-' || c == '*' }

  /** A (trimmed) line the summary keeps: one that starts with a bullet marker. */
  predicate IsBulletLine(line: string) { line != [] && IsBullet(line[0]) }

  /** `line.replace(/^[•\-*]\s*\/, '').trim()`: the text of a bullet line without its marker. */
  function BulletText(line: string): (r: string)
    ensures Trimmed(r)
  {
    Trim(if IsBulletLine(line) then TrimStart(line[1..]) else line)
  }

  /** The point a line contributes: the text of a bullet line, if it is not empty once trimmed. */
  function PointOf(line: string): (r: seq<string>)
    ensures |r| <= 1
    ensures r != [] ==> r[0] != [] && Trimmed(r[0])
  {
    var t := Trim(line);
    if IsBulletLine(t) && BulletText(t) != [] then [BulletText(t)] else []
  }

  /** The summary points of a list of lines, before the cut to three, one line at a time. */
  function SummaryItems(lines: seq<string>): (r: seq<string>)
    ensures |r| <= |lines|
    decreases |lines|
  {
    if lines == [] then [] else PointOf(lines[0]) + SummaryItems(lines[1..])
  }

  /** Every point of `r` is non-empty and trimmed. */
  predicate AllClean(r: seq<string>) {
    forall i :: 0 <= i < |r| ==> r[i] != [] && Trimmed(r[i])
  }

  lemma CleanConcat(a: seq<string>, b: seq<string>)
    requires AllClean(a) && AllClean(b)
    ensures AllClean(a + b)
  {
    forall i | 0 <= i < |a + b| ensures (a + b)[i] != [] && Trimmed((a + b)[i]) {
      if i < |a| { assert (a + b)[i] == a[i]; } else { assert (a + b)[i] == b[i - |a|]; }
    }
  }

  /** Every point is non-empty and trimmed. */
  lemma {:induction false} SummaryItemsClean(lines: seq<string>)
    ensures AllClean(SummaryItems(lines))
    decreases |lines|
  {
    if lines != [] {
      var head := PointOf(lines[0]);
      var rest := SummaryItems(lines[1..]);
      assert SummaryItems(lines) == head + rest;
      assert AllClean(head) by {
        assert |head| <= 1;
      }
      SummaryItemsClean(lines[1..]);
      CleanConcat(head, rest);
    }
  }

  /**
   * The points are those of the source's pipeline: trim every line, keep the bullet lines, strip
   * their markers, drop the empty texts.
   */
  lemma {:induction false} SummaryItemsIsPipeline(lines: seq<string>)
    ensures SummaryItems(lines) == Filter(NonEmpty, Map(BulletText, Filter(IsBulletLine, Map(Trim, lines))))
    decreases |lines|
  {
    if lines != [] {
      SummaryItemsIsPipeline(lines[1..]);
      var line, rest := lines[0], lines[1..];
      assert lines == [line] + rest;
      MapCons(Trim, line, rest);
      var trimmed := Map(Trim, rest);
      FilterCons(IsBulletLine, Trim(line), trimmed);
      var bullets := Filter(IsBulletLine, trimmed);
      if IsBulletLine(Trim(line)) {
        MapCons(BulletText, Trim(line), bullets);
        FilterCons(NonEmpty, BulletText(Trim(line)), Map(BulletText, bullets));
      }
    }
  }

  /** The most points a summary has. */
  const SummaryLimit: nat := 3

  /**
   * `parseSummary`: the texts of the lines that start with a bullet marker once trimmed, empty ones
   * dropped, at most three, in input order.
   */
  function ParseSummary(response: string): (r: seq<string>)
    ensures |r| <= SummaryLimit
    ensures forall i :: 0 <= i < |r| ==> r[i] != [] && Trimmed(r[i])
  {
    SummaryItemsClean(Split(response, IsNewline));
    Take(SummaryItems(Split(response, IsNewline)), SummaryLimit)
  }

  /** A line contributes its point, if it has one, ahead of the points of the lines after it. */
  lemma SummaryItemsCons(line: string, lines: seq<string>)
    ensures SummaryItems([line] + lines) == PointOf(line) + SummaryItems(lines)
  {
    assert ([line] + lines)[0] == line && ([line] + lines)[1..] == lines;
  }

  /** A point as the model is asked to write it: a bullet, a space, the text. */
  function Bulleted(point: string): string {
    "\U{2022} " + point
  }

  /** A summary point that survives a round trip: non-empty, trimmed, on one line. */
  predicate PointOk(point: string) {
    point != [] && Trimmed(point) && NoneOf(point, IsNewline)
  }

  /** The reply format the summary prompt asks for: one bulleted line per point. */
  function RenderSummary(points: seq<string>): string {
    if points == [] then "" else Bulleted(points[0]) + "\n" + RenderSummary(points[1..])
  }

  /** A bulleted line gives back its point. */
  lemma BulletedText(point: string)
    requires PointOk(point)
    ensures Trim(Bulleted(point)) == Bulleted(point)
    ensures IsBulletLine(Bulleted(point)) && BulletText(Bulleted(point)) == point
  {
    var line := Bulleted(point);
    assert line[0] == '\U{2022}' && line[|line| - 1] == point[|point| - 1];
    assert Trimmed(line);
    var after := line[1..];
    assert after == " " + point;
    LeadingSpacesPadded(" ", point);
    assert TrimStart(after) == point by {
      assert after[1..] == point;
    }
    assert BulletText(line) == Trim(point);
  }

  /** The rendered summary splits into its bulleted lines, then whatever follows. */
  lemma {:induction false} SplitRenderSummary(points: seq<string>, tail: string)
    requires forall i :: 0 <= i < |points| ==> PointOk(points[i])
    ensures Split(RenderSummary(points) + tail, IsNewline) == Map(Bulleted, points) + Split(tail, IsNewline)
    decreases |points|
  {
    if points == [] {
      assert RenderSummary(points) + tail == tail;
    } else {
      var line := Bulleted(points[0]);
      assert NoneOf(line, IsNewline) by {
        forall k | 0 <= k < |line| ensures !IsNewline(line[k]) {
          if k >= 2 { assert line[k] == points[0][k - 2]; }
        }
      }
      var later := points[1..];
      var after := RenderSummary(later) + tail;
      assert forall i :: 0 <= i < |later| ==> PointOk(later[i]) by {
        forall i | 0 <= i < |later| ensures PointOk(later[i]) { assert later[i] == points[i + 1]; }
      }
      assert Split(after, IsNewline) == Map(Bulleted, later) + Split(tail, IsNewline) by {
        SplitRenderSummary(later, tail);
      }
      assert RenderSummary(points) + tail == line + ['\n'] + after;
      assert Split(line + ['\n'] + after, IsNewline) == [line] + Split(after, IsNewline) by {
        SplitAtSeparator(line, '\n', after, IsNewline);
      }
      assert Map(Bulleted, points) == [line] + Map(Bulleted, later) by {
        MapHead(Bulleted, points);
      }
      AppendAssoc([line], Map(Bulleted, later), Split(tail, IsNewline));
    }
  }

  /** The first of several bulleted lines contributes its own point first. */
  lemma SummaryItemsOfBulletedHead(points: seq<string>, rest: seq<string>)
    requires points != []
    ensures SummaryItems(Map(Bulleted, points) + rest) == PointOf(Bulleted(points[0])) + SummaryItems(Map(Bulleted, points[1..]) + rest)
  {
    MapHead(Bulleted, points);
    AppendAssoc([Bulleted(points[0])], Map(Bulleted, points[1..]), rest);
    SummaryItemsCons(Bulleted(points[0]), Map(Bulleted, points[1..]) + rest);
  }

  /** A bulleted point is the one point of its line. */
  lemma PointOfBulleted(point: string)
    requires PointOk(point)
    ensures PointOf(Bulleted(point)) == [point]
  {
    BulletedText(point);
  }

  /** Bulleted lines give back their points, ahead of the points of what follows. */
  lemma {:induction false} SummaryItemsOfBulleted(points: seq<string>, rest: seq<string>)
    requires forall i :: 0 <= i < |points| ==> PointOk(points[i])
    ensures SummaryItems(Map(Bulleted, points) + rest) == points + SummaryItems(rest)
    decreases |points|
  {
    if points != [] {
      var later := points[1..];
      assert forall i :: 0 <= i < |later| ==> PointOk(later[i]) by {
        forall i | 0 <= i < |later| ensures PointOk(later[i]) { assert later[i] == points[i + 1]; }
      }
      assert SummaryItems(Map(Bulleted, later) + rest) == later + SummaryItems(rest) by {
        SummaryItemsOfBulleted(later, rest);
      }
      assert PointOf(Bulleted(points[0])) == [points[0]] by {
        PointOfBulleted(points[0]);
      }
      SummaryItemsOfBulletedHead(points, rest);
      ConsAppend(points, SummaryItems(rest));
    } else {
      assert Map(Bulleted, points) + rest == rest;
    }
  }

  /** The rendered summary splits into its bulleted lines and the empty line after the last newline. */
  lemma RenderedSummaryLines(points: seq<string>)
    requires forall i :: 0 <= i < |points| ==> PointOk(points[i])
    ensures Split(RenderSummary(points), IsNewline) == Map(Bulleted, points) + [""]
  {
    SplitRenderSummary(points, "");
    assert RenderSummary(points) + "" == RenderSummary(points);
    assert Split("", IsNewline) == [""];
  }

  /** The points of a rendered summary, before the cut: exactly the points rendered. */
  lemma RenderedSummaryItems(points: seq<string>)
    requires forall i :: 0 <= i < |points| ==> PointOk(points[i])
    ensures SummaryItems(Split(RenderSummary(points), IsNewline)) == points
  {
    RenderedSummaryLines(points);
    SummaryItemsOfBulleted(points, [""]);
    assert SummaryItems([""]) == [] by {
      SummaryItemsCons("", []);
      assert [""] + [] == [""];
      assert PointOf("") == [];
    }
    assert points + [] == points;
  }

  /** A reply in the requested format, with at most three points, parses back to those points. */
  lemma SummaryRoundTrip(points: seq<string>)
    requires |points| <= SummaryLimit
    requires forall i :: 0 <= i < |points| ==> PointOk(points[i])
    ensures ParseSummary(RenderSummary(points)) == points
  {
    RenderedSummaryItems(points);
  }

  /** Only the first three points are kept: later bullets are dropped. */
  lemma SummaryKeepsFirstThree(points: seq<string>)
    requires |points| > SummaryLimit
    requires forall i :: 0 <= i < |points| ==> PointOk(points[i])
    ensures ParseSummary(RenderSummary(points)) == points[..SummaryLimit]
  {
    RenderedSummaryItems(points);
  }

  /** A line that is not a bullet once trimmed contributes nothing: preambles are ignored. */
  lemma NonBulletLineIgnored(line: string, rest: string)
    requires NoneOf(line, IsNewline)
    requires !IsBulletLine(Trim(line))
    ensures ParseSummary(line + "\n" + rest) == ParseSummary(rest)
  {
    var lines := Split(rest, IsNewline);
    assert Split(line + "\n" + rest, IsNewline) == [line] + lines by {
      assert line + "\n" + rest == line + ['\n'] + rest;
      SplitAtSeparator(line, '\n', rest, IsNewline);
    }
    assert SummaryItems([line] + lines) == SummaryItems(lines) by {
      SummaryItemsCons(line, lines);
      assert PointOf(line) == [];
    }
  }

  // ---------------------------------------------------------------------------------------------
  // parseTags and the keyword list of parseSEO
  // ---------------------------------------------------------------------------------------------

  /** The separators `[,，、]`: the ASCII comma, the full-width comma and the ideographic comma. */
  predicate IsListSep(c: char) { c == ',' || c == '\U{FF0C}' || c == '\U{3001}' }

  /** `टैग्`, the Hindi word for tag without its plural ending. */
  const HindiTag: string := "\U{091F}\U{0948}\U{0917}\U{094D}"

  /**
   * The length of the label `(टैग्स?|tags?):` at the start of `s`, without regard to ASCII case, or
   * 0 when there is none. At most one of the four spellings can be followed by the colon.
   */
  function TagLabelLength(s: string): (k: nat)
    ensures k <= |s|
    ensures k > 0 ==> s[k - 1] == ':'
  {
    var l := Lower(s);
    if StartsWith(l, "tags:") then assert l[4] == ':'; 5
    else if StartsWith(l, "tag:") then assert l[3] == ':'; 4
    else if StartsWith(l, HindiTag + "\U{0938}:") then assert l[5] == ':'; 6
    else if StartsWith(l, HindiTag + ":") then assert l[4] == ':'; 5
    else 0
  }

  /** `response.replace(/^(टैग्स?|tags?):\s*\/i, '')`: the label and the white space after it removed. */
  function StripTagLabel(s: string): (r: string)
    ensures TagLabelLength(s) == 0 ==> r == s
  {
    var k := TagLabelLength(s);
    if k == 0 then s else TrimStart(s[k..])
  }

  /** The non-empty trimmed pieces, one piece at a time. */
  function ListItems(pieces: seq<string>): (r: seq<string>)
    ensures |r| <= |pieces|
    ensures forall i :: 0 <= i < |r| ==> r[i] != [] && Trimmed(r[i])
    decreases |pieces|
  {
    if pieces == [] then []
    else (if Trim(pieces[0]) != [] then [Trim(pieces[0])] else []) + ListItems(pieces[1..])
  }

  /** The items are those of the source's `.map(t => t.trim()).filter(t => t.length > 0)`. */
  lemma {:induction false} ListItemsIsPipeline(pieces: seq<string>)
    ensures ListItems(pieces) == Filter(NonEmpty, Map(Trim, pieces))
    decreases |pieces|
  {
    if pieces != [] {
      ListItemsIsPipeline(pieces[1..]);
      assert pieces == [pieces[0]] + pieces[1..];
      MapCons(Trim, pieces[0], pieces[1..]);
      FilterCons(NonEmpty, Trim(pieces[0]), Map(Trim, pieces[1..]));
    }
  }

  /** Trimming keeps a character class out: items of pieces without it are without it. */
  lemma {:induction false} ListItemsKeepFree(pieces: seq<string>, p: char -> bool)
    requires forall k :: 0 <= k < |pieces| ==> NoneOf(pieces[k], p)
    ensures forall i :: 0 <= i < |ListItems(pieces)| ==> NoneOf(ListItems(pieces)[i], p)
    decreases |pieces|
  {
    if pieces != [] {
      ListItemsKeepFree(pieces[1..], p);
      var t := Trim(pieces[0]);
      forall k | 0 <= k < |t| ensures !p(t[k]) {
        assert t[k] in pieces[0];
      }
    }
  }

  /** A comma-separated list: split on the three separators, trimmed, empty items dropped. */
  function SplitList(s: string): (r: seq<string>)
    ensures forall i :: 0 <= i < |r| ==> r[i] != [] && Trimmed(r[i]) && NoneOf(r[i], IsListSep)
  {
    var pieces := Split(s, IsListSep);
    ListItemsKeepFree(pieces, IsListSep);
    ListItems(pieces)
  }

  /** The most tags and keywords kept. */
  const TagLimit: nat := 7

  /** `parseTags`: the label removed, the list split, at most seven tags. */
  function ParseTags(response: string): (r: seq<string>)
    ensures |r| <= TagLimit
    ensures forall i :: 0 <= i < |r| ==> r[i] != [] && Trimmed(r[i]) && NoneOf(r[i], IsListSep)
  {
    Take(SplitList(StripTagLabel(response)), TagLimit)
  }

  /** A tag or keyword that survives a round trip: non-empty, trimmed, free of separators. */
  predicate ItemOk(item: string) {
    item != [] && Trimmed(item) && NoneOf(item, IsListSep)
  }

  /** `items.join(', ')` for a non-empty list. */
  function JoinFrom(items: seq<string>): string
    requires items != []
    decreases |items|
  {
    if |items| == 1 then items[0] else items[0] + ", " + JoinFrom(items[1..])
  }

  /** `items.join(', ')`. */
  function JoinList(items: seq<string>): string {
    if items == [] then "" else JoinFrom(items)
  }

  /** A list written with `, ` splits into its items, each padded with what surrounds it. */
  lemma {:induction false} SplitJoinFrom(head: string, items: seq<string>, tail: string)
    requires items != []
    requires NoneOf(head, IsListSep) && NoneOf(tail, IsListSep)
    requires forall i :: 0 <= i < |items| ==> NoneOf(items[i], IsListSep)
    ensures var pieces := Split(head + JoinFrom(items) + tail, IsListSep);
      && |pieces| == |items|
      && pieces[0] == head + items[0] + (if |items| == 1 then tail else "")
      && forall i :: 1 <= i < |items| ==> pieces[i] == " " + items[i] + (if i == |items| - 1 then tail else "")
    decreases |items|
  {
    var s := head + JoinFrom(items) + tail;
    if |items| == 1 {
      var whole := head + items[0] + tail;
      assert s == whole;
      assert NoneOf(whole, IsListSep) by {
        forall k | 0 <= k < |whole| ensures !IsListSep(whole[k]) {
          if k < |head| { assert whole[k] == head[k]; }
          else if k < |head| + |items[0]| { assert whole[k] == items[0][k - |head|]; }
          else { assert whole[k] == tail[k - |head| - |items[0]|]; }
        }
      }
      SplitNoSeparator(whole, IsListSep);
    } else {
      var first := head + items[0];
      assert NoneOf(first, IsListSep) by {
        forall k | 0 <= k < |first| ensures !IsListSep(first[k]) {
          if k < |head| { assert first[k] == head[k]; } else { assert first[k] == items[0][k - |head|]; }
        }
      }
      SplitJoinFrom(" ", items[1..], tail);
      assert s == first + [','] + (" " + JoinFrom(items[1..]) + tail);
      SplitAtSeparator(first, ',', " " + JoinFrom(items[1..]) + tail, IsListSep);
    }
  }

  /** Pieces whose trimmed forms are the items, all non-empty, give back exactly the items. */
  lemma {:induction false} ListItemsOfPadded(pieces: seq<string>, items: seq<string>)
    requires |pieces| == |items|
    requires forall i :: 0 <= i < |items| ==> Trim(pieces[i]) == items[i] && items[i] != []
    ensures ListItems(pieces) == items
    decreases |pieces|
  {
    if pieces != [] {
      ListItemsOfPadded(pieces[1..], items[1..]);
      assert items == [items[0]] + items[1..];
    }
  }

  /** A list written with `, ` and followed only by white space splits back into its items. */
  lemma SplitListJoin(items: seq<string>, tail: string)
    requires forall i :: 0 <= i < |items| ==> ItemOk(items[i])
    requires All(tail, IsSpace)
    ensures SplitList(JoinList(items) + tail) == items
  {
    assert NoneOf(tail, IsListSep);
    if items == [] {
      assert JoinList(items) + tail == tail;
      SplitNoSeparator(tail, IsListSep);
      assert Trim(tail) == [] by {
        if tail != [] { assert IsSpace(tail[0]); }
      }
      assert ListItems([tail]) == [];
    } else {
      SplitJoinFrom("", items, tail);
      assert "" + JoinFrom(items) + tail == JoinList(items) + tail;
      var pieces := Split(JoinList(items) + tail, IsListSep);
      forall i | 0 <= i < |items| ensures Trim(pieces[i]) == items[i] {
        var after := if i == |items| - 1 then tail else "";
        var before := if i == 0 then "" else " ";
        assert pieces[i] == before + items[i] + after;
        TrimPadded(before, items[i], after);
      }
      ListItemsOfPadded(pieces, items);
    }
  }

  /** Text without a colon carries no tag label. */
  lemma NoColonNoLabel(s: string)
    requires NoneOf(s, IsColon)
    ensures TagLabelLength(s) == 0
  {
    var k := TagLabelLength(s);
    if k > 0 {
      assert IsColon(s[k - 1]);
    }
  }

  /** A labelled reply in the requested format, with at most seven tags, parses back to those tags. */
  lemma TagsRoundTrip(tags: seq<string>)
    requires |tags| <= TagLimit
    requires forall i :: 0 <= i < |tags| ==> ItemOk(tags[i])
    ensures ParseTags("Tags: " + JoinList(tags)) == tags
  {
    var s := "Tags: " + JoinList(tags);
    var l := Lower(s);
    assert l[..5] == "tags:";
    assert s[5..] == " " + JoinList(tags);
    var j := JoinList(tags);
    assert j == [] || j[0] == tags[0][0] by {
      if tags != [] {
        if |tags| == 1 { } else { assert j == tags[0] + (", " + JoinFrom(tags[1..])); }
      }
    }
    LeadingSpacesPadded(" ", j);
    SplitListJoin(tags, "");
    assert j + "" == j;
  }
}
