/** The text decorations of src/app/text.rs: the coloured layout of the regex
    with its capture-group tables, the error layout of a malformed regex, and
    the coloured layout of the matched input text with its per-match table.

    The capture-group walker and the regex matcher are not modelled: their
    results arrive as inputs. `groups` is the walker's list of
    `(depth, byte range)`, one entry per capture group in capture-index order;
    a match is the list of capture slots of one `captures_iter` item, slot 0
    being the whole match. The resolved monospace font stands for `style`. */
module Text {
  import opened RustStd
  import opened Egui
  import opened Colors
  import opened Glyphs
  import opened Sections
  import opened RegexCrate

  /** `RegexLayout` of text.rs. */
  datatype RegexLayout = RegexLayout(
    job: LayoutJob,
    /** Per capture group: its inverted depth and its glyph range in the regex. */
    captureGroupChars: seq<(nat, Range)>,
    /** Index 0 is a placeholder; index i colours capture group i. */
    captureGroupColors: seq<Color32>)

  const DefaultRegexLayout := RegexLayout(DefaultJob, [], [])

  /** `max_depth`: the largest walker depth, 0 when there are no groups. */
  function MaxDepth(groups: seq<(nat, Range)>): (d: nat)
    ensures forall k :: 0 <= k < |groups| ==> groups[k].0 <= d
    ensures |groups| > 0 ==> exists k :: 0 <= k < |groups| && groups[k].0 == d
    ensures |groups| == 0 ==> d == 0
  {
    if groups == [] then 0
    else
      var rest := MaxDepth(groups[1..]);
      if groups[0].0 >= rest then groups[0].0 else rest
  }

  /** `capture_group_colors`: a transparent placeholder for index 0, then the
      background palette cycled once per group. Neighbouring groups never share
      a colour and no group is transparent. */
  function CaptureGroupColors(n: nat): (colors: seq<Color32>)
    ensures |colors| == n + 1 && colors[0] == Transparent
    ensures forall i :: 1 <= i <= n ==> colors[i] == BACKGROUND_COLORS[(i - 1) % 3]
    ensures forall i :: 1 <= i <= n ==> colors[i] != Transparent
    ensures forall i :: 1 <= i < n ==> colors[i] != colors[i + 1]
  {
    [Transparent] + seq(n, i => BACKGROUND_COLORS[i % 3])
  }

  /** The walker's ranges as one fill per group, filled in walker order. */
  function GroupSlots(groups: seq<(nat, Range)>): (slots: seq<Option<Range>>)
    ensures |slots| == |groups|
    ensures forall k :: 0 <= k < |groups| ==> slots[k] == Some(groups[k].1)
  {
    seq(|groups|, k requires 0 <= k < |groups| => Some(groups[k].1))
  }

  /** The marker array of the regex: byte i holds the 1-based index of the last
      group covering it, or 0. */
  function RegexMarks(regex: seq<byte>, groups: seq<(nat, Range)>): (marks: seq<nat>)
    ensures |marks| == |regex|
    ensures forall i :: 0 <= i < |regex| ==> marks[i] == LastCover(GroupSlots(groups), i) <= |groups|
  {
    seq(|regex|, i requires 0 <= i < |regex| => LastCover(GroupSlots(groups), i))
  }

  /** `capture_group_chars` of the regex: one entry per group in order, with
      the depth inverted against the deepest group (so it never exceeds it and
      a deeper group gets a smaller value) and the range converted to glyphs. */
  function CaptureGroupChars(regex: seq<byte>, groups: seq<(nat, Range)>): (chars: seq<(nat, Range)>)
    requires forall k :: 0 <= k < |groups| ==> IsStrRange(regex, groups[k].1)
    ensures |chars| == |groups|
    ensures forall k :: 0 <= k < |groups| ==>
      && chars[k].0 + groups[k].0 == MaxDepth(groups)
      && Some(chars[k].1) == ConvertByteRangeToCharRange(groups[k].1, regex)
      && chars[k].1.start <= chars[k].1.end <= StrGlyphCount(regex)
    ensures forall k, q :: 0 <= k < |groups| && 0 <= q < |groups| && groups[k].0 <= groups[q].0 ==>
      chars[q].0 <= chars[k].0
  {
    var maxDepth := MaxDepth(groups);
    seq(|groups|, k requires 0 <= k < |groups| =>
      (maxDepth - groups[k].0, ConvertByteRangeToCharRange(groups[k].1, regex).value))
  }

  /** The marking loop of `regex_parse_ast`: a zeroed marker per byte, then
      each group's range filled with its 1-based index in walker order. */
  method MarkGroups(regex: seq<byte>, groups: seq<(nat, Range)>) returns (marks: array<nat>)
    requires forall k :: 0 <= k < |groups| ==> IsStrRange(regex, groups[k].1)
    ensures fresh(marks)
    ensures marks[..] == RegexMarks(regex, groups)
  {
    marks := new nat[|regex|](_ => 0);
    Paint(marks, GroupSlots(groups));
  }

  /** `regex_parse_ast`. The empty regex gives the default layout. Otherwise
      the text is the regex, the two tables are as above, and the sections are
      the run encoding of the marker array, each white on its group's colour. */
  method RegexParseAst(regex: seq<byte>, groups: seq<(nat, Range)>, font: FontId) returns (layout: RegexLayout)
    requires regex != [] ==> forall k :: 0 <= k < |groups| ==> IsStrRange(regex, groups[k].1)
    ensures regex == [] ==> layout == DefaultRegexLayout
    ensures regex != [] ==>
      && layout.job.text == regex
      && layout.captureGroupChars == CaptureGroupChars(regex, groups)
      && layout.captureGroupColors == CaptureGroupColors(|groups|)
      && IsRunEncoding(RegexMarks(regex, groups), layout.job.sections)
      && ColouredByMarker(RegexMarks(regex, groups), layout.captureGroupColors, font, layout.job.sections)
  {
    if regex == [] {
      return DefaultRegexLayout;
    }
    var chars := CaptureGroupChars(regex, groups);
    var colors := CaptureGroupColors(|groups|);

    var marks := MarkGroups(regex, groups);
    var sections := GroupRuns(marks, colors, font);
    layout := RegexLayout(LayoutJob(regex, sections), chars, colors);
  }

  // ---------------------------------------------------------------------
  // Malformed regexes

  /** `RegexError`: a parse error carries its primary span and maybe an
      auxiliary one; a compile error carries no span. */
  datatype RegexError = Parse(span: Range, aux: Option<Range>) | Compile

  /** The `Ord` of regex_syntax's `Span`: by start offset, then end offset. */
  predicate SpanLe(a: Range, b: Range) {
    a.start < b.start || (a.start == b.start && a.end <= b.end)
  }

  /** `Ord::min`: the smaller of the two spans, the first one on a tie. */
  function SpanMin(a: Range, b: Range): (r: Range)
    ensures r == a || r == b
    ensures SpanLe(r, a) && SpanLe(r, b)
  {
    if SpanLe(a, b) then a else b
  }

  /** `Ord::max`: the larger of the two spans, the second one on a tie. */
  function SpanMax(a: Range, b: Range): (r: Range)
    ensures r == a || r == b
    ensures SpanLe(a, r) && SpanLe(b, r)
  {
    if SpanLe(a, b) then b else a
  }

  /** `plaintext`: red text on no background over the given bytes. */
  function PlainText(r: Range, font: FontId): (s: LayoutSection)
    ensures s.byteRange == r && s.format.fontId == font
    ensures s.format.color == FG_RED && s.format.background == Transparent && !IsHighlight(s)
  {
    LayoutSection(r, Simple(font, FG_RED))
  }

  /** `highlight`: white text on the error background over the given bytes. */
  function Highlight(r: Range, font: FontId): (s: LayoutSection)
    ensures s.byteRange == r && s.format.fontId == font
    ensures s.format.color == White && IsHighlight(s)
  {
    LayoutSection(r, TextFormat(font, White, BG_RED))
  }

  predicate IsHighlight(s: LayoutSection) {
    s.format.background == BG_RED
  }

  /** `layout_regex_err`: both tables are empty and the text is the regex. A
      compile error highlights the whole regex; a parse error highlights its
      span, or its two spans in span order, with red plain text before,
      between and after. The highlighted sections are exactly the error spans. */
  function LayoutRegexErr(regex: seq<byte>, font: FontId, err: RegexError): (layout: RegexLayout)
    ensures layout.job.text == regex && layout.captureGroupChars == [] && layout.captureGroupColors == []
    ensures err.Compile? ==> layout.job.sections == [Highlight(Range(0, |regex|), font)]
    ensures err.Parse? && err.aux.None? ==>
      && |layout.job.sections| == 3
      && layout.job.sections[0] == PlainText(Range(0, err.span.start), font)
      && layout.job.sections[1] == Highlight(err.span, font)
      && layout.job.sections[2] == PlainText(Range(err.span.end, |regex|), font)
    ensures err.Parse? && err.aux.Some? ==>
      var s := layout.job.sections;
      && |s| == 5
      && SpanLe(s[1].byteRange, s[3].byteRange)
      && {s[1].byteRange, s[3].byteRange} == {err.span, err.aux.value}
      && s[1] == Highlight(s[1].byteRange, font) && s[3] == Highlight(s[3].byteRange, font)
      && s[0] == PlainText(Range(0, s[1].byteRange.start), font)
      && s[2] == PlainText(Range(s[1].byteRange.end, s[3].byteRange.start), font)
      && s[4] == PlainText(Range(s[3].byteRange.end, |regex|), font)
    ensures forall k :: 0 <= k < |layout.job.sections| ==>
      (IsHighlight(layout.job.sections[k]) <==> |layout.job.sections| == 1 || k % 2 == 1)
  {
    var sections :=
      match err
      case Compile => [Highlight(Range(0, |regex|), font)]
      case Parse(span, None) => [
        PlainText(Range(0, span.start), font),
        Highlight(span, font),
        PlainText(Range(span.end, |regex|), font)]
      case Parse(span, Some(aux)) =>
        var min := SpanMin(span, aux);
        var max := SpanMax(span, aux);
        [
          PlainText(Range(0, min.start), font),
          Highlight(min, font),
          PlainText(Range(min.end, max.start), font),
          Highlight(max, font),
          PlainText(Range(max.end, |regex|), font)
        ];
    RegexLayout(LayoutJob(regex, sections), [], [])
  }

  /** A span the parser reports lies within the regex. */
  predicate InRegex(regex: seq<byte>, r: Range) {
    r.start <= r.end <= |regex|
  }

  /** When the error spans lie within the regex and (with two spans) do not
      overlap, the error sections tile the regex in order. */
  lemma ErrLayoutTiles(regex: seq<byte>, font: FontId, err: RegexError)
    requires err.Parse? ==> InRegex(regex, err.span)
    requires err.Parse? && err.aux.Some? ==>
      && InRegex(regex, err.aux.value)
      && SpanMin(err.span, err.aux.value).end <= SpanMax(err.span, err.aux.value).start
    ensures Contiguous(LayoutRegexErr(regex, font, err).job.sections, |regex|)
  {
  }

  // ---------------------------------------------------------------------
  // Matched text

  /** `MatchedTextLayout` of text.rs. */
  datatype MatchedTextLayout = MatchedTextLayout(
    job: LayoutJob,
    /** Per match, per capture group: the glyph range it matched, if any. */
    captureGroupChars: seq<seq<Option<Range>>>)

  const DefaultMatchedTextLayout := MatchedTextLayout(DefaultJob, [])

  /** `layout_plain_text`: the text in one section that covers all of it, in
      the default text colour on no background. */
  function LayoutPlainText(text: seq<byte>, font: FontId): (job: LayoutJob)
    ensures job.text == text && Contiguous(job.sections, |text|) && |job.sections| == 1
    ensures job.sections[0].format == TextFormat(font, DefaultText, Transparent)
  {
    SingleSection(text, Plain(font))
  }

  /** The match ranges lie on char boundaries of the text, as the matcher guarantees. */
  predicate MatchesInText(text: seq<byte>, matches: seq<Captures>) {
    forall k, j :: 0 <= k < |matches| && 0 <= j < |GroupsOf(matches[k])| && GroupsOf(matches[k])[j].Some? ==>
      IsStrRange(text, GroupsOf(matches[k])[j].value)
  }

  /** The marker a single match leaves on byte `i`: the 1-based index of the
      last of its groups covering `i`, 0 when none does. */
  function MatchCover(captures: Captures, i: nat): (g: nat)
    ensures g <= |GroupsOf(captures)|
    ensures g > 0 ==> Covers(captures[g], i)
  {
    LastCover(GroupsOf(captures), i)
  }

  /** The marker of byte `i` after all matches have been painted in order:
      the last match that covers `i` decides, and within it the last group. */
  function MatchMark(matches: seq<Captures>, i: nat): nat {
    if matches == [] then 0
    else
      var g := MatchCover(matches[|matches| - 1], i);
      if g > 0 then g else MatchMark(matches[..|matches| - 1], i)
  }

  /** The overlap rule across matches, first half: a byte is unmarked exactly
      when no match covers it. */
  lemma {:induction false} MatchMarkZero(matches: seq<Captures>, i: nat)
    ensures MatchMark(matches, i) == 0 <==> forall k :: 0 <= k < |matches| ==> MatchCover(matches[k], i) == 0
  {
    if matches != [] {
      var n := |matches| - 1;
      var init := matches[..n];
      MatchMarkZero(init, i);
      if MatchMark(matches, i) == 0 {
        forall k | 0 <= k < |matches|
          ensures MatchCover(matches[k], i) == 0
        {
          if k < n {
            assert init[k] == matches[k];
          }
        }
      } else if MatchCover(matches[n], i) == 0 {
        var k :| 0 <= k < n && MatchCover(init[k], i) != 0;
        assert init[k] == matches[k];
      }
    }
  }

  /** The overlap rule across matches, second half: a marked byte carries the
      marker of the last match that covers it. */
  lemma {:induction false} MatchMarkLast(matches: seq<Captures>, i: nat) returns (k: nat)
    requires MatchMark(matches, i) > 0
    ensures k < |matches| && MatchCover(matches[k], i) == MatchMark(matches, i)
    ensures forall q :: k < q < |matches| ==> MatchCover(matches[q], i) == 0
  {
    var n := |matches| - 1;
    if MatchCover(matches[n], i) > 0 {
      k := n;
    } else {
      k := MatchMarkLast(matches[..n], i);
      assert matches[..n][k] == matches[k];
      forall q | k < q < |matches|
        ensures MatchCover(matches[q], i) == 0
      {
        if q < n {
          assert matches[..n][q] == matches[q];
        }
      }
    }
  }

  function MatchMarks(text: seq<byte>, matches: seq<Captures>): (marks: seq<nat>)
    ensures |marks| == |text|
    ensures forall i :: 0 <= i < |text| ==> marks[i] == MatchMark(matches, i)
  {
    seq(|text|, i requires 0 <= i < |text| => MatchMark(matches, i))
  }

  /** One row of the match table: a slot per capture group (group 0 left
      out), `None` exactly for the groups that did not take part, and the
      glyph range of the match otherwise. */
  function MatchRow(text: seq<byte>, captures: Captures): (row: seq<Option<Range>>)
    requires forall j :: 0 <= j < |GroupsOf(captures)| && GroupsOf(captures)[j].Some? ==>
      IsStrRange(text, GroupsOf(captures)[j].value)
    ensures |row| == |GroupsOf(captures)| && (captures != [] ==> |row| == |captures| - 1)
    ensures forall j :: 0 <= j < |row| ==> (row[j].None? <==> captures[j + 1].None?)
    ensures forall j :: 0 <= j < |row| && row[j].Some? ==>
      && Some(row[j].value) == ConvertByteRangeToCharRange(captures[j + 1].value, text)
      && row[j].value.start <= row[j].value.end <= StrGlyphCount(text)
  {
    var groups := GroupsOf(captures);
    seq(|groups|, j requires 0 <= j < |groups| =>
      if groups[j].None? then None else Some(ConvertByteRangeToCharRange(groups[j].value, text).value))
  }

  /** `layout_matched_text`. Empty text gives the default layout; an empty
      pattern one plain section and no rows. Otherwise there is one row per
      match, and the sections are the run encoding of the marker array, each
      white on its group's colour. */
  method LayoutMatchedText(
    text: seq<byte>, pattern: seq<byte>, matches: seq<Captures>,
    captureGroupColors: seq<Color32>, font: FontId)
    returns (layout: MatchedTextLayout)
    requires text != [] && pattern != [] ==> MatchesInText(text, matches)
    requires text != [] && pattern != [] ==>
      forall i :: 0 <= i < |text| ==> MatchMark(matches, i) < |captureGroupColors|
    ensures text == [] ==> layout == DefaultMatchedTextLayout
    ensures text != [] && pattern == [] ==> layout == MatchedTextLayout(LayoutPlainText(text, font), [])
    ensures text != [] && pattern != [] ==>
      && layout.job.text == text
      && |layout.captureGroupChars| == |matches|
      && (forall k :: 0 <= k < |matches| ==> layout.captureGroupChars[k] == MatchRow(text, matches[k]))
      && IsRunEncoding(MatchMarks(text, matches), layout.job.sections)
      && ColouredByMarker(MatchMarks(text, matches), captureGroupColors, font, layout.job.sections)
  {
    if text == [] {
      return DefaultMatchedTextLayout;
    }
    if pattern == [] {
      return MatchedTextLayout(LayoutPlainText(text, font), []);
    }
    var marks, rows := MarkMatches(text, matches);
    var sections := GroupRuns(marks, captureGroupColors, font);
    layout := MatchedTextLayout(LayoutJob(text, sections), rows);
  }

  /** The `captures_iter` loop of `layout_matched_text`: paint every
      participating group of every match, and collect one row per match. */
  method MarkMatches(text: seq<byte>, matches: seq<Captures>)
    returns (marks: array<nat>, rows: seq<seq<Option<Range>>>)
    requires MatchesInText(text, matches)
    ensures fresh(marks)
    ensures marks[..] == MatchMarks(text, matches)
    ensures |rows| == |matches|
    ensures forall k :: 0 <= k < |matches| ==> rows[k] == MatchRow(text, matches[k])
  {
    marks := new nat[|text|](_ => 0);
    rows := [];
    var k := 0;
    while k < |matches|
      invariant 0 <= k <= |matches|
      invariant forall i :: 0 <= i < marks.Length ==> marks[i] == MatchMark(matches[..k], i)
      invariant |rows| == k
      invariant forall q :: 0 <= q < k ==> rows[q] == MatchRow(text, matches[q])
    {
      Paint(marks, GroupsOf(matches[k]));
      assert matches[..k + 1][..k] == matches[..k];
      rows := rows + [MatchRow(text, matches[k])];
      k := k + 1;
    }
    assert matches[..|matches|] == matches;
  }
}
