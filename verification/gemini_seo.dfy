/**
 * The SEO block of a Gemini reply: the fields `SEO_TITLE:\s*(.+)`, `META_DESCRIPTION:\s*(.+)` and
 * `KEYWORDS:\s*(.+)`, each searched for without regard to ASCII case, anywhere in the reply.
 */
module GeminiSeo {
  import opened Wrappers
  import opened Seqs
  import opened Text
  import opened GeminiService
  import opened ArticleModel

  /** `key`, written in lower case, occurs at `i` without regard to ASCII case. */
  predicate LabelAt(s: string, key: string, i: nat) {
    i + |key| <= |s| && forall m :: 0 <= m < |key| ==> LowerChar(s[i + m]) == key[m]
  }

  /** Where a greedy `\s*` tried at `q` stops: the end of the white-space run (see `SpaceRunEndSpec`). */
  function SpaceRunEnd(s: string, q: nat): (e: nat)
    requires q <= |s|
    ensures q <= e <= |s|
    decreases |s| - q
  {
    if q == |s| || !IsSpace(s[q]) then q else SpaceRunEnd(s, q + 1)
  }

  /** Where a greedy `.+` tried at `p` stops: the first line terminator, or the end (see `LineEndSpec`). */
  function LineEnd(s: string, p: nat): (e: nat)
    requires p <= |s|
    ensures p <= e <= |s|
    decreases |s| - p
  {
    if p == |s| || IsLineTerminator(s[p]) then p else LineEnd(s, p + 1)
  }

  /**
   * Where the group `(.+)` of `\s*(.+)` starts when the pattern is tried at `q` and `\s*` first
   * reaches `p`: the greedy run gives back one character at a time until `.` can match (see
   * `CaptureStartSpec`).
   */
  function CaptureStart(s: string, q: nat, p: nat): (r: Option<nat>)
    requires q <= p <= |s|
    ensures r.Some? ==> q <= r.value <= p && r.value < |s|
    decreases p - q
  {
    if p < |s| && !IsLineTerminator(s[p]) then Some(p)
    else if p == q then None
    else CaptureStart(s, q, p - 1)
  }

  /** The group of `\s*(.+)` tried at `q` (see `CaptureSpec`). */
  function Capture(s: string, q: nat): (r: Option<string>)
    requires q <= |s|
  {
    match CaptureStart(s, q, SpaceRunEnd(s, q))
    case None => None
    case Some(p) => Some(s[p..LineEnd(s, p)])
  }

  /** The white-space run is maximal: all white space up to its end, and none at its end. */
  lemma {:induction false} SpaceRunEndSpec(s: string, q: nat)
    requires q <= |s|
    ensures forall k :: q <= k < SpaceRunEnd(s, q) ==> IsSpace(s[k])
    ensures SpaceRunEnd(s, q) < |s| ==> !IsSpace(s[SpaceRunEnd(s, q)])
    decreases |s| - q
  {
    if q < |s| && IsSpace(s[q]) {
      SpaceRunEndSpec(s, q + 1);
    }
  }

  /** The run of `.` is maximal: no line terminator up to its end, and one (or the end of input) at its end. */
  lemma {:induction false} LineEndSpec(s: string, p: nat)
    requires p <= |s|
    ensures forall k :: p <= k < LineEnd(s, p) ==> !IsLineTerminator(s[k])
    ensures LineEnd(s, p) < |s| ==> IsLineTerminator(s[LineEnd(s, p)])
    decreases |s| - p
  {
    if p < |s| && !IsLineTerminator(s[p]) {
      LineEndSpec(s, p + 1);
    }
  }

  /**
   * Backtracking finds the last position from `q` to `p` that is not a line terminator; there is
   * none exactly when every position there is one.
   */
  lemma {:induction false} CaptureStartSpec(s: string, q: nat, p: nat)
    requires q <= p <= |s|
    ensures CaptureStart(s, q, p).Some? ==>
      var c := CaptureStart(s, q, p).value;
      !IsLineTerminator(s[c]) && forall k :: c < k <= p && k < |s| ==> IsLineTerminator(s[k])
    ensures CaptureStart(s, q, p).None? <==> forall k :: q <= k <= p && k < |s| ==> IsLineTerminator(s[k])
    decreases p - q
  {
    if !(p < |s| && !IsLineTerminator(s[p])) && p != q {
      CaptureStartSpec(s, q, p - 1);
    }
  }

  /**
   * `v` is a non-empty one-line run at `c` that reaches the end of its line, preceded from `q` by
   * white space only.
   */
  predicate CapturedAt(s: string, q: nat, c: nat, v: string) {
    && q <= c && c + |v| <= |s| && s[c..c + |v|] == v
    && (forall k :: q <= k < c ==> IsSpace(s[k]))
    && v != [] && NoneOf(v, IsLineTerminator)
    && (c + |v| == |s| || IsLineTerminator(s[c + |v|]))
  }

  /**
   * The pattern `\s*(.+)` at `q`: when it matches, the group is a non-empty one-line run that
   * reaches the end of its line and is preceded, from `q`, by white space only; it fails exactly
   * when the white-space run from `q`, and the character that ends it, are all line terminators.
   */
  lemma CaptureSpec(s: string, q: nat)
    requires q <= |s|
    ensures Capture(s, q).Some? ==> exists c :: CapturedAt(s, q, c, Capture(s, q).value)
    ensures Capture(s, q).None? <==> forall k :: q <= k <= SpaceRunEnd(s, q) && k < |s| ==> IsLineTerminator(s[k])
  {
    var e := SpaceRunEnd(s, q);
    SpaceRunEndSpec(s, q);
    CaptureStartSpec(s, q, e);
    if CaptureStart(s, q, e).Some? {
      var c := CaptureStart(s, q, e).value;
      LineEndSpec(s, c);
      var v := s[c..LineEnd(s, c)];
      assert forall k :: 0 <= k < |v| ==> v[k] == s[c + k];
      assert CapturedAt(s, q, c, v);
    }
  }

  /** The field pattern matches at `i`: its key, then white space, then at least one character. */
  predicate FieldAt(s: string, key: string, i: nat) {
    LabelAt(s, key, i) && Capture(s, i + |key|).Some?
  }

  /**
   * The least position from `i` to `n` that satisfies `p`: how a regular-expression search tries
   * start positions from left to right.
   */
  function FirstFrom(p: nat -> bool, i: nat, n: nat): (r: Option<nat>)
    requires i <= n
    ensures r.Some? ==> i <= r.value <= n && p(r.value)
    ensures r.Some? ==> forall k :: i <= k < r.value ==> !p(k)
    ensures r.None? <==> forall k :: i <= k <= n ==> !p(k)
    decreases n - i
  {
    if p(i) then Some(i)
    else if i == n then None
    else FirstFrom(p, i + 1, n)
  }

  /** The search stops at the first position that qualifies. */
  lemma {:induction false} FirstFromAt(p: nat -> bool, i: nat, j: nat, n: nat)
    requires i <= j <= n && p(j)
    requires forall k :: i <= k < j ==> !p(k)
    ensures FirstFrom(p, i, n) == Some(j)
    decreases j - i
  {
    if i < j {
      FirstFromAt(p, i + 1, j, n);
    }
  }

  /** The leftmost position where the field pattern matches. */
  function FindField(s: string, key: string): (r: Option<nat>)
    ensures r.Some? ==> r.value <= |s| && FieldAt(s, key, r.value)
    ensures r.Some? ==> forall k :: 0 <= k < r.value ==> !FieldAt(s, key, k)
    ensures r.None? <==> forall k :: 0 <= k <= |s| ==> !FieldAt(s, key, k)
  {
    var p := (k: nat) => FieldAt(s, key, k);
    assert forall k :: 0 <= k ==> (p(k) <==> FieldAt(s, key, k));
    FirstFrom(p, 0, |s|)
  }

  /** `s.match(/LABEL\s*(.+)/i)?.[1]`. */
  function Field(s: string, key: string): (r: Option<string>)
    ensures r.None? <==> forall k :: 0 <= k <= |s| ==> !FieldAt(s, key, k)
  {
    match FindField(s, key)
    case None => None
    case Some(j) => Capture(s, j + |key|)
  }

  const TitleLabel: string := "seo_title:"
  const DescriptionLabel: string := "meta_description:"
  const KeywordsLabel: string := "keywords:"

  /** The most UTF-16 code units of an SEO title and of a meta description. */
  const TitleLimit: nat := 60
  const DescriptionLimit: nat := 160

  /**
   * `parseSEO`: each field's text trimmed and cut to its limit, the keywords split as a list and cut
   * to seven; a missing field gives the empty text or the empty list.
   */
  function ParseSEO(response: string): (r: Seo)
    ensures Units(r.title) <= TitleLimit && Units(r.metaDescription) <= DescriptionLimit && |r.keywords| <= TagLimit
    ensures r.title == [] || !IsSpace(r.title[0])
    ensures r.metaDescription == [] || !IsSpace(r.metaDescription[0])
    ensures forall i :: 0 <= i < |r.keywords| ==> ItemOk(r.keywords[i])
    ensures Field(response, TitleLabel).None? ==> r.title == []
    ensures Field(response, DescriptionLabel).None? ==> r.metaDescription == []
    ensures Field(response, KeywordsLabel).None? ==> r.keywords == []
  {
    var keywords := Field(response, KeywordsLabel);
    Seo(
      CutField(Field(response, TitleLabel), TitleLimit),
      CutField(Field(response, DescriptionLabel), DescriptionLimit),
      if keywords.Some? then Take(SplitList(keywords.value), TagLimit) else [])
  }

  /** One text field of `parseSEO`: trimmed and cut to `limit` code units; empty when missing. */
  function CutField(field: Option<string>, limit: nat): (r: string)
    ensures Units(r) <= limit
    ensures r == [] || !IsSpace(r[0])
    ensures field.None? ==> r == []
    ensures field.Some? && Trimmed(field.value) && Units(field.value) <= limit ==> r == field.value
  {
    if field.None? then ""
    else
      var text := Trim(field.value);
      TakeUnitsLongestPrefix(text, limit);
      TakeUnits(text, limit)
  }

  // ---------------------------------------------------------------------------------------------
  // Where a field is found
  // ---------------------------------------------------------------------------------------------

  /** A key occurrence ends with the colon of its key. */
  lemma LabelEndsWithColon(s: string, key: string, i: nat)
    requires |key| >= 1 && IsColon(key[|key| - 1])
    requires LabelAt(s, key, i)
    ensures IsColon(s[i + |key| - 1])
  {
    assert LowerChar(s[i + |key| - 1]) == key[|key| - 1];
  }

  /** A text a field can carry back: non-empty, trimmed, on one line, without a colon. */
  predicate FieldOk(v: string) {
    v != [] && Trimmed(v) && NoneOf(v, IsLineTerminator) && NoneOf(v, IsColon)
  }

  /**
   * No colon of `prefix` can end an occurrence of a key whose next-to-last character is `before`:
   * every colon after the first character follows a character that does not lower-case to it.
   */
  predicate NoLabelEndIn(prefix: string, before: char) {
    forall e :: 1 <= e < |prefix| && IsColon(prefix[e]) ==> LowerChar(prefix[e - 1]) != before
  }

  /** A key whose only colon is its last character. */
  predicate ColonLabel(key: string) {
    |key| >= 2 && IsColon(key[|key| - 1]) && NoneOf(key[..|key| - 1], IsColon)
  }

  /** Before `prefix` ends, the key cannot occur in `prefix + Label + after`. */
  lemma NoLabelBefore(prefix: string, written: string, key: string, after: string, k: nat)
    requires ColonLabel(key) && Lower(written) == key
    requires NoLabelEndIn(prefix, key[|key| - 2])
    requires k < |prefix|
    ensures !LabelAt(prefix + written + after, key, k)
  {
    var s := prefix + written + after;
    var n := |key|;
    var e := k + n - 1;
    if e >= |prefix| {
      var w := e - |prefix|;
      assert s[e] == written[w];
      assert LowerChar(written[w]) == Lower(written)[w] == key[..n - 1][w];
      assert LowerChar(s[k + (n - 1)]) != key[n - 1];
    } else if IsColon(s[e]) {
      assert s[e] == prefix[e] && s[e - 1] == prefix[e - 1];
      assert LowerChar(s[k + (n - 2)]) != key[n - 2];
    } else {
      assert LowerChar(s[k + (n - 1)]) != key[n - 1];
    }
  }

  /** `.+` stops at the first line terminator after `p`. */
  lemma {:induction false} LineEndAt(s: string, p: nat, m: nat)
    requires p <= m <= |s|
    requires forall k :: p <= k < m ==> !IsLineTerminator(s[k])
    requires m == |s| || IsLineTerminator(s[m])
    ensures LineEnd(s, p) == m
    decreases m - p
  {
    if p < m {
      LineEndAt(s, p + 1, m);
    }
  }

  /** The field is found at the first occurrence of its key, when the pattern matches there. */
  lemma FieldFoundAt(s: string, key: string, j: nat, v: string)
    requires LabelAt(s, key, j) && Capture(s, j + |key|) == Some(v)
    requires forall k :: 0 <= k < j ==> !LabelAt(s, key, k)
    ensures Field(s, key) == Some(v)
  {
    assert FieldAt(s, key, j);
  }

  /** A value after one space runs to the end of its line. */
  lemma CaptureAfterSpace(s: string, q: nat, v: string)
    requires q + 1 + |v| <= |s| && s[q] == ' ' && s[q + 1..q + 1 + |v|] == v
    requires v != [] && !IsSpace(v[0]) && NoneOf(v, IsLineTerminator)
    requires q + 1 + |v| == |s| || IsLineTerminator(s[q + 1 + |v|])
    ensures Capture(s, q) == Some(v)
  {
    var m := q + 1 + |v|;
    assert s[q + 1] == v[0];
    assert SpaceRunEnd(s, q) == q + 1;
    assert CaptureStart(s, q, q + 1) == Some(q + 1);
    assert forall k :: q + 1 <= k < m ==> s[k] == v[k - q - 1];
    LineEndAt(s, q + 1, m);
  }

  /**
   * The field written as its key (in any letter case), one space and its value, ahead of a line
   * break or the end, is found there, provided no colon before it can end the key.
   */
  lemma FieldFound(prefix: string, written: string, key: string, v: string, tail: string)
    requires ColonLabel(key) && Lower(written) == key
    requires NoLabelEndIn(prefix, key[|key| - 2])
    requires v != [] && !IsSpace(v[0]) && NoneOf(v, IsLineTerminator)
    requires tail == [] || IsLineTerminator(tail[0])
    ensures Field(prefix + written + (" " + v + tail), key) == Some(v)
  {
    var after := " " + v + tail;
    var s := prefix + written + after;
    var j := |prefix|;
    var q := j + |written|;
    assert LabelAt(s, key, j) by {
      forall m | 0 <= m < |key| ensures LowerChar(s[j + m]) == key[m] {
        assert s[j + m] == written[m];
      }
    }
    assert Capture(s, q) == Some(v) by {
      assert s[q + 1..q + 1 + |v|] == v;
      CaptureAfterSpace(s, q, v);
    }
    forall k | 0 <= k < j ensures !LabelAt(s, key, k) {
      NoLabelBefore(prefix, written, key, after, k);
    }
    FieldFoundAt(s, key, j, v);
  }

  // ---------------------------------------------------------------------------------------------
  // The round trip
  // ---------------------------------------------------------------------------------------------

  /** One line of the SEO reply: the label as written, a space, the value. */
  function FieldLine(written: string, v: string): string {
    written + " " + v
  }

  /** The reply format the SEO prompt asks for: three labelled lines. */
  function RenderSeo(seo: Seo): string {
    FieldLine("SEO_TITLE:", seo.title)
      + ("\n" + (FieldLine("META_DESCRIPTION:", seo.metaDescription)
      + ("\n" + FieldLine("KEYWORDS:", JoinList(seo.keywords)))))
  }

  /** A list joined with `, ` keeps out every class of character that excludes the comma and the space. */
  lemma {:induction false} JoinFromFree(items: seq<string>, p: char -> bool)
    requires items != [] && !p(',') && !p(' ')
    requires forall i :: 0 <= i < |items| ==> NoneOf(items[i], p)
    ensures NoneOf(JoinFrom(items), p)
    decreases |items|
  {
    if |items| > 1 {
      JoinFromFree(items[1..], p);
      var rest := JoinFrom(items[1..]);
      var s := items[0] + ", " + rest;
      forall k | 0 <= k < |s| ensures !p(s[k]) {
        if k < |items[0]| { assert s[k] == items[0][k]; }
        else if k >= |items[0]| + 2 { assert s[k] == rest[k - |items[0]| - 2]; }
      }
    }
  }

  /** A joined list starts with its first item. */
  lemma JoinFromHead(items: seq<string>)
    requires items != [] && items[0] != []
    ensures JoinFrom(items) != [] && JoinFrom(items)[0] == items[0][0]
  {
  }

  /** Colons of two pieces that cannot end the key, with no colon where they meet. */
  lemma NoLabelEndJoin(a: string, b: string, before: char)
    requires NoLabelEndIn(a, before) && NoLabelEndIn(b, before)
    requires b != [] ==> !IsColon(b[0])
    ensures NoLabelEndIn(a + b, before)
  {
    var s := a + b;
    forall e | 1 <= e < |s| && IsColon(s[e]) ensures LowerChar(s[e - 1]) != before {
      if e > |a| {
        assert s[e] == b[e - |a|] && s[e - 1] == b[e - |a| - 1];
      } else if e < |a| {
        assert s[e] == a[e] && s[e - 1] == a[e - 1];
      }
    }
  }

  /** Text without a colon has no colon to end a key. */
  lemma NoColonNoLabelEnd(s: string, before: char)
    requires NoneOf(s, IsColon)
    ensures NoLabelEndIn(s, before)
  {
  }

  /** The field written on a line of its own is found there. */
  lemma FieldLineFound(prefix: string, written: string, key: string, v: string, tail: string)
    requires ColonLabel(key) && Lower(written) == key
    requires NoLabelEndIn(prefix, key[|key| - 2])
    requires v != [] && !IsSpace(v[0]) && NoneOf(v, IsLineTerminator)
    requires tail == [] || IsLineTerminator(tail[0])
    ensures Field(prefix + FieldLine(written, v) + tail, key) == Some(v)
  {
    assert prefix + FieldLine(written, v) + tail == prefix + written + (" " + v + tail) by {
      AppendAssoc(prefix, FieldLine(written, v), tail);
      AppendAssoc(written + " ", v, tail);
      AppendAssoc(written, " ", v + tail);
      AppendAssoc(" ", v, tail);
      AppendAssoc(prefix, written, " " + v + tail);
    }
    FieldFound(prefix, written, key, v, tail);
  }

  /** A field line ends no label but where its written label does. */
  lemma FieldLineColons(written: string, v: string, before: char)
    requires NoLabelEndIn(written, before) && NoneOf(v, IsColon)
    ensures NoLabelEndIn(FieldLine(written, v) + "\n", before)
  {
    var rest := " " + v + "\n";
    assert NoneOf(rest, IsColon) by {
      forall k | 0 <= k < |rest| ensures !IsColon(rest[k]) {
        if 1 <= k <= |v| { assert rest[k] == v[k - 1]; }
      }
    }
    NoLabelEndJoin(written, rest, before);
    assert written + rest == FieldLine(written, v) + "\n";
  }

  /** A label written in capitals lower-cases to its key, which ends with its only colon. */
  lemma WrittenLabel(written: string, key: string)
    requires |written| == |key| >= 2 && IsColon(key[|key| - 1])
    requires forall m :: 0 <= m < |key| ==> LowerChar(written[m]) == key[m]
    requires forall m :: 0 <= m < |key| - 1 ==> !IsColon(key[m])
    ensures ColonLabel(key) && Lower(written) == key
  {
    var name := key[..|key| - 1];
    assert NoneOf(name, IsColon) by {
      forall m | 0 <= m < |name| ensures !IsColon(name[m]) {
        assert name[m] == key[m];
      }
    }
  }

  /** The title label as the prompt writes it; its colon follows an `E`. */
  lemma WrittenTitleLabel()
    ensures ColonLabel(TitleLabel) && Lower("SEO_TITLE:") == TitleLabel
    ensures NoLabelEndIn("SEO_TITLE:", 'n') && NoLabelEndIn("SEO_TITLE:", 's')
  {
    var t := "SEO_TITLE:";
    WrittenLabel(t, TitleLabel);
    forall e | 1 <= e < |t| && IsColon(t[e]) ensures LowerChar(t[e - 1]) == 'e' {
      assert e == 9;
    }
  }

  /** The description label as the prompt writes it; its colon follows an `N`. */
  lemma WrittenDescriptionLabel()
    ensures ColonLabel(DescriptionLabel) && Lower("META_DESCRIPTION:") == DescriptionLabel
    ensures NoLabelEndIn("META_DESCRIPTION:", 's')
  {
    var d := "META_DESCRIPTION:";
    WrittenLabel(d, DescriptionLabel);
    forall e | 1 <= e < |d| && IsColon(d[e]) ensures LowerChar(d[e - 1]) == 'n' {
      assert e == 16;
    }
  }

  /** The three labels as the prompt writes them, and what their colons follow. */
  lemma WrittenLabels()
    ensures ColonLabel(TitleLabel) && Lower("SEO_TITLE:") == TitleLabel
    ensures ColonLabel(DescriptionLabel) && Lower("META_DESCRIPTION:") == DescriptionLabel
    ensures ColonLabel(KeywordsLabel) && Lower("KEYWORDS:") == KeywordsLabel
    ensures NoLabelEndIn("SEO_TITLE:", 'n') && NoLabelEndIn("SEO_TITLE:", 's')
    ensures NoLabelEndIn("META_DESCRIPTION:", 's')
  {
    WrittenTitleLabel();
    WrittenDescriptionLabel();
    WrittenLabel("KEYWORDS:", KeywordsLabel);
  }

  /** The SEO fields a reply can carry back: one-line texts within their limits, keywords as for tags. */
  predicate SeoOk(seo: Seo) {
    && FieldOk(seo.title) && Units(seo.title) <= TitleLimit
    && FieldOk(seo.metaDescription) && Units(seo.metaDescription) <= DescriptionLimit
    && seo.keywords != [] && |seo.keywords| <= TagLimit
    && forall i :: 0 <= i < |seo.keywords| ==> ItemOk(seo.keywords[i]) && NoneOf(seo.keywords[i], IsLineTerminator)
  }

  lemma TitleFound(seo: Seo)
    requires SeoOk(seo)
    ensures Field(RenderSeo(seo), TitleLabel) == Some(seo.title)
  {
    var first := FieldLine("SEO_TITLE:", seo.title);
    var tail := "\n" + (FieldLine("META_DESCRIPTION:", seo.metaDescription)
      + ("\n" + FieldLine("KEYWORDS:", JoinList(seo.keywords))));
    WrittenLabels();
    FieldLineFound("", "SEO_TITLE:", TitleLabel, seo.title, tail);
    assert "" + first == first;
  }

  lemma DescriptionFound(seo: Seo)
    requires SeoOk(seo)
    ensures Field(RenderSeo(seo), DescriptionLabel) == Some(seo.metaDescription)
  {
    var first := FieldLine("SEO_TITLE:", seo.title);
    var second := FieldLine("META_DESCRIPTION:", seo.metaDescription);
    var tail := "\n" + FieldLine("KEYWORDS:", JoinList(seo.keywords));
    WrittenLabels();
    FieldLineColons("SEO_TITLE:", seo.title, 'n');
    FieldLineFound(first + "\n", "META_DESCRIPTION:", DescriptionLabel, seo.metaDescription, tail);
    AppendAssoc(first + "\n", second, tail);
    AppendAssoc(first, "\n", second + tail);
  }

  lemma KeywordsFound(seo: Seo)
    requires SeoOk(seo)
    ensures Field(RenderSeo(seo), KeywordsLabel) == Some(JoinList(seo.keywords))
  {
    var first := FieldLine("SEO_TITLE:", seo.title);
    var second := FieldLine("META_DESCRIPTION:", seo.metaDescription);
    var list := JoinList(seo.keywords);
    var third := FieldLine("KEYWORDS:", list);
    WrittenLabels();
    FieldLineColons("SEO_TITLE:", seo.title, 's');
    FieldLineColons("META_DESCRIPTION:", seo.metaDescription, 's');
    NoLabelEndJoin(first + "\n", second + "\n", 's');
    JoinFromFree(seo.keywords, IsLineTerminator);
    JoinFromHead(seo.keywords);
    var prefix := (first + "\n") + (second + "\n");
    FieldLineFound(prefix, "KEYWORDS:", KeywordsLabel, list, "");
    calc {
      prefix + third + "";
      prefix + third;
      { AppendAssoc(first + "\n", second + "\n", third); }
      (first + "\n") + ((second + "\n") + third);
      { AppendAssoc(second, "\n", third); }
      (first + "\n") + (second + ("\n" + third));
      { AppendAssoc(first, "\n", second + ("\n" + third)); }
      RenderSeo(seo);
    }
  }

  /** A reply in the requested format, within the limits, parses back to the fields written. */
  lemma SeoRoundTrip(seo: Seo)
    requires SeoOk(seo)
    ensures ParseSEO(RenderSeo(seo)) == seo
  {
    TitleFound(seo);
    DescriptionFound(seo);
    KeywordsFound(seo);
    ParseFound(RenderSeo(seo), seo);
  }

  /** A reply whose three fields hold the values of `seo`, each within its limit, parses to `seo`. */
  lemma ParseFound(text: string, seo: Seo)
    requires SeoOk(seo)
    requires Field(text, TitleLabel) == Some(seo.title)
    requires Field(text, DescriptionLabel) == Some(seo.metaDescription)
    requires Field(text, KeywordsLabel) == Some(JoinList(seo.keywords))
    ensures ParseSEO(text) == seo
  {
    var r := ParseSEO(text);
    assert r.title == seo.title by {
      assert CutField(Some(seo.title), TitleLimit) == seo.title;
    }
    assert r.metaDescription == seo.metaDescription by {
      assert CutField(Some(seo.metaDescription), DescriptionLimit) == seo.metaDescription;
    }
    assert r.keywords == seo.keywords by {
      KeywordsRoundTrip(seo.keywords);
    }
  }

  /** A keyword list within the limit, written as one line, splits back into itself. */
  lemma KeywordsRoundTrip(keywords: seq<string>)
    requires |keywords| <= TagLimit && forall i :: 0 <= i < |keywords| ==> ItemOk(keywords[i])
    ensures Take(SplitList(JoinList(keywords)), TagLimit) == keywords
  {
    var list := JoinList(keywords);
    SplitListJoin(keywords, "");
    assert list + "" == list;
  }

  /**
   * `\s*` also crosses line breaks: a title key with nothing after it on its line takes the whole
   * next line, whatever it holds, as the title.
   */
  lemma EmptyTitleTakesNextLine(line: string)
    requires line != [] && Trimmed(line) && NoneOf(line, IsLineTerminator)
    ensures ParseSEO("SEO_TITLE:\n" + line).title == TakeUnits(line, TitleLimit)
  {
    var s := "SEO_TITLE:\n" + line;
    WrittenLabels();
    assert LabelAt(s, TitleLabel, 0) by {
      forall m | 0 <= m < |TitleLabel| ensures LowerChar(s[m]) == TitleLabel[m] {
        assert s[m] == "SEO_TITLE:"[m];
      }
    }
    assert s[11] == line[0];
    assert SpaceRunEnd(s, 10) == 11;
    assert CaptureStart(s, 10, 11) == Some(11);
    assert forall k :: 11 <= k < |s| ==> s[k] == line[k - 11];
    LineEndAt(s, 11, |s|);
    assert s[11..|s|] == line;
    assert Capture(s, 10) == Some(line);
    assert |TitleLabel| == 10;
    FieldFoundAt(s, TitleLabel, 0, line);
  }
}
