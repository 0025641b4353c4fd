/** The older layout pass of src/app/parsing.rs: `layout_regex` colours the
    top-level children of a regex (runs of literals merged into one section)
    and records which section each capture group landed in; `input_layouter`
    colours the input text group by group, with plain gap sections between,
    and keeps a parallel table from sections to regex sections. */
module Parsing {
  import opened RustStd
  import opened Egui
  import opened Colors
  import opened RegexCrate
  import opened Sections

  /** The regex_syntax AST, reduced to what `layout_regex` distinguishes. */
  datatype Ast =
    | Concat(span: Range, asts: seq<Ast>)
    | Group(span: Range, capturing: bool, child: Ast)
    | Literal(span: Range)
    /** Alternations, repetitions, classes, assertions, ... */
    | Other(span: Range)

  predicate IsCapture(a: Ast) {
    a.Group? && a.capturing
  }

  /** `RegexLayout` of parsing.rs. */
  datatype RegexLayout = RegexLayout(job: LayoutJob, captureGroupSections: seq<nat>)

  // ---------------------------------------------------------------------
  // layout_regex, described child by child

  /** Child `i` closes a section unless it is a literal followed by a literal. */
  predicate Emits(cs: seq<Ast>, i: nat)
    requires i < |cs|
    ensures !cs[i].Literal? ==> Emits(cs, i)
    ensures i == |cs| - 1 ==> Emits(cs, i)
    ensures cs[i].Literal? && i + 1 < |cs| ==> (Emits(cs, i) <==> !cs[i + 1].Literal?)
  {
    !(cs[i].Literal? && i + 1 < |cs| && cs[i + 1].Literal?)
  }

  /** The number of sections the first `k` children emit, which is also the
      index of the section child `k` emits. */
  function Emitted(cs: seq<Ast>, k: nat): (r: nat)
    requires k <= |cs|
    ensures r <= k
    ensures k == |cs| > 0 ==> r > 0
  {
    if k == 0 then 0 else Emitted(cs, k - 1) + (if Emits(cs, k - 1) then 1 else 0)
  }

  /** Where the literal run containing literal `i` starts: 0 for the run at
      the front, else the start of the run's first literal. */
  function RunStart(cs: seq<Ast>, i: nat): nat
    requires i < |cs| && cs[i].Literal?
  {
    if i == 0 then 0
    else if cs[i - 1].Literal? then RunStart(cs, i - 1)
    else cs[i].span.start
  }

  /** The byte range of the section child `i` emits. */
  function ChildRange(cs: seq<Ast>, i: nat): (r: Range)
    requires i < |cs|
    ensures r.end == cs[i].span.end
    ensures !cs[i].Literal? ==> r == cs[i].span
  {
    if cs[i].Literal? then Range(RunStart(cs, i), cs[i].span.end) else cs[i].span
  }

  /** The section child `i` emits, coloured by its place in the foreground cycle. */
  function ChildSection(cs: seq<Ast>, i: nat, font: FontId): (s: LayoutSection)
    requires i < |cs|
    ensures s.byteRange == ChildRange(cs, i)
    ensures s.format.fontId == font && s.format.background == Transparent
    ensures s.format.color in FOREGROUND_COLORS
  {
    LayoutSection(ChildRange(cs, i), Simple(font, FOREGROUND_COLORS[Emitted(cs, i) % 3]))
  }

  /** The section indexes of the capture groups among the first `k` children. */
  function CaptureSections(cs: seq<Ast>, k: nat): (r: seq<nat>)
    requires k <= |cs|
    ensures |r| <= k
  {
    if k == 0 then []
    else CaptureSections(cs, k - 1) + (if IsCapture(cs[k - 1]) then [Emitted(cs, k - 1)] else [])
  }

  /** `layout_regex`. A capturing-group root gives one blue section and the
      table `[0]`, any other non-`Concat` root one blue section and an empty
      table. For a `Concat`, every emitting child has its section at index
      `Emitted(cs, i)`, and the table lists the capture groups' sections. */
  method LayoutRegex(regex: seq<byte>, ast: Ast, font: FontId) returns (layout: RegexLayout)
    ensures !ast.Concat? ==> layout.job == SingleSection(regex, Simple(font, FG_BLUE))
    ensures !ast.Concat? ==> layout.captureGroupSections == if IsCapture(ast) then [0] else []
    ensures ast.Concat? ==>
      && layout.job.text == regex
      && |layout.job.sections| == Emitted(ast.asts, |ast.asts|)
      && (forall i :: 0 <= i < |ast.asts| && Emits(ast.asts, i) ==>
            Emitted(ast.asts, i) < |layout.job.sections| &&
            layout.job.sections[Emitted(ast.asts, i)] == ChildSection(ast.asts, i, font))
      && layout.captureGroupSections == CaptureSections(ast.asts, |ast.asts|)
    ensures ast.Concat? && ChildrenTile(ast.asts, |regex|) ==> Contiguous(layout.job.sections, |regex|)
  {
    if !ast.Concat? {
      // The first colour of the cycle.
      var job := SingleSection(regex, Simple(font, FOREGROUND_COLORS[0]));
      return RegexLayout(job, if IsCapture(ast) then [0] else []);
    }
    var cs := ast.asts;
    var sections: seq<LayoutSection> := [];
    var captureGroupSections: seq<nat> := [];
    var literalStart := 0;
    var i := 0;
    while i < |cs|
      invariant 0 <= i <= |cs|
      invariant |sections| == Emitted(cs, i)
      invariant forall j :: 0 <= j < i && Emits(cs, j) ==>
        Emitted(cs, j) < |sections| && sections[Emitted(cs, j)] == ChildSection(cs, j, font)
      invariant captureGroupSections == CaptureSections(cs, i)
      invariant i < |cs| && cs[i].Literal? ==> literalStart == RunStart(cs, i)
    {
      var child := cs[i];
      var peeked: Option<Ast> := if i + 1 < |cs| then Some(cs[i + 1]) else None;
      i := i + 1;
      if child.Literal? && peeked.Some? && peeked.value.Literal? {
        continue;
      }
      var range: Option<Range> := None;
      if child.Literal? {
        range := Some(Range(literalStart, child.span.end));
      } else if IsCapture(child) {
        captureGroupSections := captureGroupSections + [|sections|];
      }
      if range.None? && peeked.Some? && peeked.value.Literal? {
        literalStart := peeked.value.span.start;
      }
      // The colour iterator has been advanced once per section pushed so far.
      sections := sections + [LayoutSection(range.GetOr(child.span), Simple(font, FOREGROUND_COLORS[|sections| % 3]))];
    }
    layout := RegexLayout(LayoutJob(regex, sections), captureGroupSections);
    if ChildrenTile(cs, |regex|) {
      ConcatSectionsTile(cs, |regex|, sections);
    }
  }

  // ---------------------------------------------------------------------
  // What the child-by-child description of layout_regex amounts to

  function NonLiteralCount(cs: seq<Ast>, k: nat): nat
    requires k <= |cs|
  {
    if k == 0 then 0 else NonLiteralCount(cs, k - 1) + (if cs[k - 1].Literal? then 0 else 1)
  }

  /** Literals among the first `k` children that start a maximal literal run. */
  function LiteralRunCount(cs: seq<Ast>, k: nat): nat
    requires k <= |cs|
  {
    if k == 0 then 0
    else LiteralRunCount(cs, k - 1) + (if cs[k - 1].Literal? && (k == 1 || !cs[k - 2].Literal?) then 1 else 0)
  }

  /** A literal run is still open after `k` children when child `k - 1` and child `k` are both literals. */
  function OpenRun(cs: seq<Ast>, k: nat): nat
    requires k <= |cs|
  {
    if 0 < k < |cs| && cs[k - 1].Literal? && cs[k].Literal? then 1 else 0
  }

  lemma {:induction false} SectionCountPrefix(cs: seq<Ast>, k: nat)
    requires k <= |cs|
    ensures Emitted(cs, k) + OpenRun(cs, k) == NonLiteralCount(cs, k) + LiteralRunCount(cs, k)
  {
    if k > 0 {
      SectionCountPrefix(cs, k - 1);
    }
  }

  /** Literal-run merging: every non-literal child yields one section and every
      maximal run of literals exactly one. */
  lemma SectionCount(cs: seq<Ast>)
    ensures Emitted(cs, |cs|) == NonLiteralCount(cs, |cs|) + LiteralRunCount(cs, |cs|)
  {
    SectionCountPrefix(cs, |cs|);
  }

  lemma {:induction false} EmittedGrows(cs: seq<Ast>, j: nat, k: nat)
    requires j < k <= |cs|
    ensures Emitted(cs, j) <= Emitted(cs, k)
    ensures Emits(cs, j) ==> Emitted(cs, j) < Emitted(cs, k)
  {
    if j + 1 < k {
      EmittedGrows(cs, j, k - 1);
    }
  }

  /** Each section of a `Concat` layout comes from exactly one child: the
      emitting children and the section indexes correspond one to one. */
  lemma {:induction false} SectionsFromChildren(cs: seq<Ast>, s: nat) returns (j: nat)
    requires s < Emitted(cs, |cs|)
    ensures j < |cs| && Emits(cs, j) && Emitted(cs, j) == s
    ensures forall q :: 0 <= q < |cs| && q != j && Emits(cs, q) ==> Emitted(cs, q) != s
  {
    j := FirstEmitting(cs, s, |cs|);
    forall q | 0 <= q < |cs| && q != j && Emits(cs, q)
      ensures Emitted(cs, q) != s
    {
      if q < j {
        EmittedGrows(cs, q, j);
      } else {
        EmittedGrows(cs, j, q);
      }
    }
  }

  lemma {:induction false} FirstEmitting(cs: seq<Ast>, s: nat, k: nat) returns (j: nat)
    requires k <= |cs| && s < Emitted(cs, k)
    ensures j < k && Emits(cs, j) && Emitted(cs, j) == s
  {
    if Emitted(cs, k - 1) > s {
      j := FirstEmitting(cs, s, k - 1);
    } else {
      j := k - 1;
    }
  }

  /** The start of a merged literal section: 0 for the run at the front of the
      `Concat`, else the start offset of the run's first literal. */
  lemma {:induction false} RunStartIsFirstLiteral(cs: seq<Ast>, f: nat, i: nat)
    requires f <= i < |cs|
    requires forall q :: f <= q <= i ==> cs[q].Literal?
    requires f == 0 || !cs[f - 1].Literal?
    ensures RunStart(cs, i) == if f == 0 then 0 else cs[f].span.start
  {
    if i > f {
      RunStartIsFirstLiteral(cs, f, i - 1);
    }
  }

  function CaptureCount(cs: seq<Ast>, k: nat): nat
    requires k <= |cs|
  {
    if k == 0 then 0 else CaptureCount(cs, k - 1) + (if IsCapture(cs[k - 1]) then 1 else 0)
  }

  /** The capture-group table lists one entry per capturing child, in child
      order; each entry is the section of a capturing child and lies below the
      number of sections, and the entries strictly increase. */
  lemma {:induction false} CaptureSectionsSpec(cs: seq<Ast>, k: nat)
    requires k <= |cs|
    ensures |CaptureSections(cs, k)| == CaptureCount(cs, k)
    ensures forall q :: 0 <= q < |CaptureSections(cs, k)| ==> CaptureSections(cs, k)[q] < Emitted(cs, k)
    ensures forall q :: 0 <= q < |CaptureSections(cs, k)| ==>
      exists j :: 0 <= j < k && IsCapture(cs[j]) && Emits(cs, j) && CaptureSections(cs, k)[q] == Emitted(cs, j)
    ensures forall p, q :: 0 <= p < q < |CaptureSections(cs, k)| ==> CaptureSections(cs, k)[p] < CaptureSections(cs, k)[q]
  {
    if k > 0 {
      CaptureSectionsSpec(cs, k - 1);
      var prev := CaptureSections(cs, k - 1);
      var now := CaptureSections(cs, k);
      forall q | 0 <= q < |now|
        ensures exists j :: 0 <= j < k && IsCapture(cs[j]) && Emits(cs, j) && CaptureSections(cs, k)[q] == Emitted(cs, j)
      {
        if q < |prev| {
          assert now[q] == prev[q];
          var j :| 0 <= j < k - 1 && IsCapture(cs[j]) && Emits(cs, j) && prev[q] == Emitted(cs, j);
          assert 0 <= j < k && IsCapture(cs[j]) && Emits(cs, j) && CaptureSections(cs, k)[q] == Emitted(cs, j);
        } else {
          assert |now| == |prev| + 1 && q == |prev|;
          assert now[q] == Emitted(cs, k - 1) && Emits(cs, k - 1);
          assert IsCapture(cs[k - 1]) && CaptureSections(cs, k)[q] == Emitted(cs, k - 1);
        }
      }
      assert forall q :: 0 <= q < |now| ==>
        exists j :: 0 <= j < k && IsCapture(cs[j]) && Emits(cs, j) && CaptureSections(cs, k)[q] == Emitted(cs, j);
    }
  }

  // ---------------------------------------------------------------------
  // The sections of a Concat tile the regex

  /** The children of a `Concat` over `n` bytes of regex lie end to end:
      the first starts at 0, each starts where the one before ends, and the
      last ends at `n`. */
  predicate ChildrenTile(cs: seq<Ast>, n: nat) {
    && |cs| > 0
    && cs[0].span.start == 0
    && cs[|cs| - 1].span.end == n
    && (forall i :: 0 <= i < |cs| ==> cs[i].span.start <= cs[i].span.end)
    && (forall i :: 0 <= i < |cs| - 1 ==> cs[i].span.end == cs[i + 1].span.start)
  }

  lemma {:induction false} SpanChain(cs: seq<Ast>, n: nat, i: nat, j: nat)
    requires ChildrenTile(cs, n) && i <= j < |cs|
    ensures cs[i].span.start <= cs[j].span.end
  {
    if i < j {
      SpanChain(cs, n, i, j - 1);
    }
  }

  lemma {:induction false} SpanBelow(cs: seq<Ast>, n: nat, j: nat)
    requires ChildrenTile(cs, n) && j < |cs|
    ensures cs[j].span.end <= n
    decreases |cs| - j
  {
    if j < |cs| - 1 {
      SpanBelow(cs, n, j + 1);
    }
  }

  /** The children `m..j` are literals in one run when none of `m..j-1` emits. */
  lemma {:induction false} RunBack(cs: seq<Ast>, m: nat, j: nat)
    requires m < j < |cs|
    requires forall q :: m <= q < j ==> !Emits(cs, q)
    ensures cs[m].Literal? && cs[j].Literal?
    ensures RunStart(cs, j) == RunStart(cs, m)
  {
    assert !Emits(cs, j - 1);
    if m < j - 1 {
      RunBack(cs, m, j - 1);
    }
  }

  lemma {:induction false} EmittedFlat(cs: seq<Ast>, m: nat, j: nat)
    requires m <= j < |cs|
    requires forall q :: m <= q < j ==> !Emits(cs, q)
    ensures Emitted(cs, j) == Emitted(cs, m)
  {
    if m < j {
      EmittedFlat(cs, m, j - 1);
    }
  }

  /** The start of the stretch of non-emitting children before child `j`. */
  lemma {:induction false} StretchBefore(cs: seq<Ast>, j: nat) returns (m: nat)
    requires j < |cs|
    ensures m <= j && (m == 0 || Emits(cs, m - 1))
    ensures forall q :: m <= q < j ==> !Emits(cs, q)
  {
    if j == 0 || Emits(cs, j - 1) {
      m := j;
    } else {
      m := StretchBefore(cs, j - 1);
    }
  }

  /** The section of an emitting child starts at 0 when it is the first
      section, and otherwise where the section before it, emitted by child
      `p`, ends; it never ends before it starts. */
  lemma EmitterStart(cs: seq<Ast>, n: nat, j: nat) returns (p: nat)
    requires ChildrenTile(cs, n) && j < |cs| && Emits(cs, j)
    ensures ChildRange(cs, j).start <= ChildRange(cs, j).end <= n
    ensures Emitted(cs, j) == 0 ==> ChildRange(cs, j).start == 0
    ensures Emitted(cs, j) > 0 ==>
      p < j && Emits(cs, p) && Emitted(cs, p) + 1 == Emitted(cs, j) &&
      ChildRange(cs, p).end == ChildRange(cs, j).start
  {
    var m := StretchBefore(cs, j);
    EmittedFlat(cs, m, j);
    SpanBelow(cs, n, j);
    if m < j {
      RunBack(cs, m, j);
      SpanChain(cs, n, m, j);
    }
    if m > 0 {
      p := m - 1;
      assert Emitted(cs, m) == Emitted(cs, p) + 1;
      assert cs[p].span.end == cs[m].span.start;
    } else {
      p := 0;
    }
  }

  /** The sections of a `Concat` whose children tile the regex, placed at
      the byte ranges `LayoutRegex` gives them, tile the regex too: no byte
      is left uncoloured and none is coloured twice. */
  lemma {:induction false} ConcatSectionsTile(cs: seq<Ast>, n: nat, sections: seq<LayoutSection>)
    requires ChildrenTile(cs, n)
    requires |sections| == Emitted(cs, |cs|)
    requires forall i :: 0 <= i < |cs| && Emits(cs, i) ==>
      Emitted(cs, i) < |sections| && sections[Emitted(cs, i)].byteRange == ChildRange(cs, i)
    ensures Contiguous(sections, n)
  {
    var last := |cs| - 1;
    assert Emits(cs, last);
    assert sections[|sections| - 1].byteRange == ChildRange(cs, last);
    forall k | 0 <= k < |sections|
      ensures sections[k].byteRange.start <= sections[k].byteRange.end <= n
    {
      var j := SectionsFromChildren(cs, k);
      var _ := EmitterStart(cs, n, j);
    }
    forall k | 0 <= k < |sections| - 1
      ensures sections[k].byteRange.end == sections[k + 1].byteRange.start
    {
      var j := SectionsFromChildren(cs, k + 1);
      var p := EmitterStart(cs, n, j);
    }
    var first := SectionsFromChildren(cs, 0);
    var _ := EmitterStart(cs, n, first);
  }

  /** Section `q` of a `Concat` layout takes colour `q mod 3` of the
      foreground cycle, so neighbouring sections never share a colour. */
  lemma SectionColours(cs: seq<Ast>, sections: seq<LayoutSection>, font: FontId)
    requires |sections| == Emitted(cs, |cs|)
    requires forall i :: 0 <= i < |cs| && Emits(cs, i) ==>
      Emitted(cs, i) < |sections| && sections[Emitted(cs, i)] == ChildSection(cs, i, font)
    ensures forall q :: 0 <= q < |sections| ==> sections[q].format == Simple(font, FOREGROUND_COLORS[q % 3])
    ensures forall q :: 0 <= q < |sections| - 1 ==> sections[q].format.color != sections[q + 1].format.color
  {
    forall q | 0 <= q < |sections|
      ensures sections[q].format == Simple(font, FOREGROUND_COLORS[q % 3])
    {
      var j := SectionsFromChildren(cs, q);
    }
  }

  // ---------------------------------------------------------------------
  // input_layouter

  /** The compiled regex or the error: `Ok` carries what `captures_iter`
      yields over the text being laid out. */
  datatype RegexOutput = Ok(matches: seq<Captures>) | Err

  /** One participating group of one match, zipped with its colour and the
      regex section it belongs to. */
  datatype Hit = Hit(range: Range, color: Color32, section: Option<nat>)

  /** The emitted sections before rendering: a gap of plain text or a group. */
  datatype Piece = Gap(range: Range) | GroupPiece(hit: Hit)

  function Min3(a: nat, b: nat, c: nat): (m: nat)
    ensures m <= a && m <= b && m <= c && (m == a || m == b || m == c)
  {
    if a <= b && a <= c then a else if b <= c then b else c
  }

  /** The participating groups among the first `n` zipped slots. */
  function HitsUpTo(groups: seq<Option<Range>>, colors: seq<Color32>, sections: seq<Option<nat>>, n: nat): (r: seq<Hit>)
    requires n <= |groups| && n <= |colors| && n <= |sections|
    ensures |r| <= n
    ensures (forall j :: 0 <= j < n ==> groups[j].Some?) ==> |r| == n
    ensures forall k :: 0 <= k < |r| ==> r[k].color in colors && r[k].section in sections
  {
    if n == 0 then []
    else
      HitsUpTo(groups, colors, sections, n - 1) +
      (if groups[n - 1].Some? then [Hit(groups[n - 1].value, colors[n - 1], sections[n - 1])] else [])
  }

  /** `captures.iter().skip(1).zip(capture_colors).zip(group_section_indexes)`
      keeping the groups that took part; the zip stops at the shortest. */
  function MatchHits(captures: Captures, colors: seq<Color32>, sections: seq<Option<nat>>): (r: seq<Hit>)
    ensures |r| <= |GroupsOf(captures)| && |r| <= |colors| && |r| <= |sections|
    ensures forall k :: 0 <= k < |r| ==> r[k].color in colors && r[k].section in sections
  {
    var groups := GroupsOf(captures);
    HitsUpTo(groups, colors, sections, Min3(|groups|, |colors|, |sections|))
  }

  function AllHits(matches: seq<Captures>, colors: seq<Color32>, sections: seq<Option<nat>>): (r: seq<Hit>)
    ensures forall k :: 0 <= k < |r| ==> r[k].color in colors && r[k].section in sections
  {
    if matches == [] then []
    else AllHits(matches[..|matches| - 1], colors, sections) + MatchHits(matches[|matches| - 1], colors, sections)
  }

  lemma AllHitsSnoc(matches: seq<Captures>, k: nat, colors: seq<Color32>, sections: seq<Option<nat>>)
    requires k < |matches|
    ensures AllHits(matches[..k + 1], colors, sections) == AllHits(matches[..k], colors, sections) + MatchHits(matches[k], colors, sections)
  {
    assert matches[..k + 1][..k] == matches[..k];
  }

  /** `previous_match_end`: where the last group emitted ends, 0 before any. */
  function EndOf(hits: seq<Hit>): (e: nat)
    ensures hits == [] ==> e == 0
    ensures hits != [] ==> e == hits[|hits| - 1].range.end
  {
    if hits == [] then 0 else hits[|hits| - 1].range.end
  }

  /** The gap pushed before a group starting at `start`: one plain piece
      exactly when there is room after the previous end, covering that room. */
  function GapBefore(previousEnd: nat, start: nat): (r: seq<Piece>)
    ensures |r| <= 1
    ensures r != [] <==> previousEnd < start
    ensures r != [] ==> r[0] == Gap(Range(previousEnd, start))
  {
    if previousEnd < start then [Gap(Range(previousEnd, start))] else []
  }

  /** The pieces pushed inside the loops: per group, a gap when it starts after
      the previous group ended, then the group itself. */
  function EmittedPieces(hits: seq<Hit>): (r: seq<Piece>)
  {
    if hits == [] then []
    else
      var init := hits[..|hits| - 1];
      var h := hits[|hits| - 1];
      EmittedPieces(init) + GapBefore(EndOf(init), h.range.start) + [GroupPiece(h)]
  }

  /** The loops push one section per group and at most one gap before each. */
  lemma {:induction false} EmittedCount(hits: seq<Hit>)
    ensures |hits| <= |EmittedPieces(hits)| <= 2 * |hits|
  {
    if hits != [] {
      EmittedCount(hits[..|hits| - 1]);
    }
  }

  /** All pieces: those of the loops and a closing gap up to the text end. */
  function Pieces(hits: seq<Hit>, len: nat): (r: seq<Piece>)
    ensures |hits| <= |r| <= 2 * |hits| + 1
  {
    EmittedCount(hits);
    EmittedPieces(hits) + GapBefore(EndOf(hits), len)
  }

  /** The section of a piece: a gap in the default text colour, a group in
      its own colour, both on no background over the piece's bytes. */
  function Render(p: Piece, font: FontId): (s: LayoutSection)
    ensures s.format.fontId == font && s.format.background == Transparent
    ensures p.Gap? ==> s.byteRange == p.range && s.format.color == DefaultText
    ensures p.GroupPiece? ==> s.byteRange == p.hit.range && s.format.color == p.hit.color
  {
    match p
    case Gap(r) => LayoutSection(r, Plain(font))
    case GroupPiece(h) => LayoutSection(h.range, Simple(font, h.color))
  }

  /** The `section_index_map` entry of a piece: none for a gap. */
  function Info(p: Piece): (e: Option<nat>)
    ensures p.Gap? ==> e.None?
    ensures p.GroupPiece? ==> e == p.hit.section
  {
    match p
    case Gap(_) => None
    case GroupPiece(h) => h.section
  }

  function RenderAll(ps: seq<Piece>, font: FontId): (r: seq<LayoutSection>)
    ensures |r| == |ps|
    ensures forall k :: 0 <= k < |ps| ==> r[k] == Render(ps[k], font)
  {
    seq(|ps|, k requires 0 <= k < |ps| => Render(ps[k], font))
  }

  function InfoAll(ps: seq<Piece>): (r: seq<Option<nat>>)
    ensures |r| == |ps|
    ensures forall k :: 0 <= k < |ps| ==> r[k] == Info(ps[k])
  {
    seq(|ps|, k requires 0 <= k < |ps| => Info(ps[k]))
  }

  /** Pushing the pieces of one more hit onto the rendered sections and the map. */
  lemma RenderSnoc(ps: seq<Piece>, more: seq<Piece>, font: FontId)
    ensures RenderAll(ps + more, font) == RenderAll(ps, font) + RenderAll(more, font)
    ensures InfoAll(ps + more) == InfoAll(ps) + InfoAll(more)
  {
  }

  lemma HitsSnoc(done: seq<Hit>, groups: seq<Option<Range>>, colors: seq<Color32>, sections: seq<Option<nat>>, j: nat)
    requires j < |groups| && j < |colors| && j < |sections|
    ensures done + HitsUpTo(groups, colors, sections, j + 1) ==
      (done + HitsUpTo(groups, colors, sections, j)) +
      (if groups[j].Some? then [Hit(groups[j].value, colors[j], sections[j])] else [])
  {
  }

  lemma EmittedSnoc(hits: seq<Hit>, h: Hit)
    ensures EmittedPieces(hits + [h]) == EmittedPieces(hits) + GapBefore(EndOf(hits), h.range.start) + [GroupPiece(h)]
    ensures EndOf(hits + [h]) == h.range.end
  {
    assert (hits + [h])[..|hits|] == hits;
  }

  /** The loop state of `input_layouter` after the groups `hits`: the
      sections and the map are the rendering of their pieces, and
      `previous_match_end` is where the last of them ends. */
  ghost predicate Laid(hits: seq<Hit>, font: FontId, sections: seq<LayoutSection>, info: seq<Option<nat>>, previousEnd: nat) {
    && previousEnd == EndOf(hits)
    && sections == RenderAll(EmittedPieces(hits), font)
    && info == InfoAll(EmittedPieces(hits))
  }

  /** One step of the inner loop of `input_layouter`: a plain gap section
      when the group starts after the previous group ended, then the group's
      own section, each with its section-index entry. */
  method PushHit(
    font: FontId, ghost hits: seq<Hit>, m: Range, color: Color32, section: Option<nat>,
    sections: seq<LayoutSection>, newSectionInfo: seq<Option<nat>>, previousMatchEnd: nat)
    returns (sections': seq<LayoutSection>, newSectionInfo': seq<Option<nat>>, previousMatchEnd': nat)
    requires Laid(hits, font, sections, newSectionInfo, previousMatchEnd)
    ensures Laid(hits + [Hit(m, color, section)], font, sections', newSectionInfo', previousMatchEnd')
  {
    ghost var h := Hit(m, color, section);
    ghost var more := GapBefore(previousMatchEnd, m.start) + [GroupPiece(h)];
    var gapSections, gapInfo := [], [];
    if previousMatchEnd < m.start {
      gapSections, gapInfo := [LayoutSection(Range(previousMatchEnd, m.start), Plain(font))], [None];
    }
    var extra := gapSections + [LayoutSection(m, Simple(font, color))];
    var extraInfo := gapInfo + [section];
    assert extra == RenderAll(more, font) && extraInfo == InfoAll(more) by {
      assert |GapBefore(previousMatchEnd, m.start)| == |gapSections|;
    }
    EmittedSnoc(hits, h);
    RenderSnoc(EmittedPieces(hits), more, font);
    sections', newSectionInfo' := sections + extra, newSectionInfo + extraInfo;
    previousMatchEnd' := m.end;
  }

  /** The inner loop of `input_layouter`: the sections of one match's
      participating groups, each preceded by a gap when it starts after the
      previous group ended, pushed onto those of the groups before it. */
  method LayoutCaptures(
    font: FontId, captures: Captures, captureColors: seq<Color32>, groupSectionIndexes: seq<Option<nat>>,
    ghost before: seq<Hit>, sections: seq<LayoutSection>, newSectionInfo: seq<Option<nat>>, previousMatchEnd: nat)
    returns (sections': seq<LayoutSection>, newSectionInfo': seq<Option<nat>>, previousMatchEnd': nat)
    requires Laid(before, font, sections, newSectionInfo, previousMatchEnd)
    ensures Laid(before + MatchHits(captures, captureColors, groupSectionIndexes), font, sections', newSectionInfo', previousMatchEnd')
  {
    sections', newSectionInfo', previousMatchEnd' := sections, newSectionInfo, previousMatchEnd;
    var groups := GroupsOf(captures);
    var n := Min3(|groups|, |captureColors|, |groupSectionIndexes|);
    ghost var hits := before;
    assert before + HitsUpTo(groups, captureColors, groupSectionIndexes, 0) == before;
    var j := 0;
    while j < n
      invariant 0 <= j <= n
      invariant hits == before + HitsUpTo(groups, captureColors, groupSectionIndexes, j)
      invariant Laid(hits, font, sections', newSectionInfo', previousMatchEnd')
    {
      HitsSnoc(before, groups, captureColors, groupSectionIndexes, j);
      if groups[j].Some? {
        var m, color, section := groups[j].value, captureColors[j], groupSectionIndexes[j];
        sections', newSectionInfo', previousMatchEnd' :=
          PushHit(font, hits, m, color, section, sections', newSectionInfo', previousMatchEnd');
        hits := hits + [Hit(m, color, section)];
      }
      j := j + 1;
    }
  }

  /** `input_layouter`. On an error it lays the text out as one plain section
      and leaves `section_index_map` as it was. Otherwise the sections are the
      rendered pieces and the new `section_index_map` holds, in lockstep, each
      piece's entry. */
  method InputLayouter(
    font: FontId, text: seq<byte>, regex: RegexOutput, captureColors: seq<Color32>,
    groupSectionIndexes: seq<Option<nat>>, sectionIndexMap: seq<Option<nat>>)
    returns (job: LayoutJob, newSectionIndexMap: seq<Option<nat>>)
    ensures regex.Err? ==> job == SingleSection(text, Plain(font)) && newSectionIndexMap == sectionIndexMap
    ensures regex.Ok? ==>
      var pieces := Pieces(AllHits(regex.matches, captureColors, groupSectionIndexes), |text|);
      && job == LayoutJob(text, RenderAll(pieces, font))
      && newSectionIndexMap == InfoAll(pieces)
      && |job.sections| == |newSectionIndexMap|
  {
    if regex.Err? {
      return SingleSection(text, Plain(font)), sectionIndexMap;
    }
    var matches := regex.matches;
    var newSectionInfo: seq<Option<nat>> := [];
    var sections: seq<LayoutSection> := [];
    var previousMatchEnd := 0;
    ghost var hits: seq<Hit> := [];

    var k := 0;
    while k < |matches|
      invariant 0 <= k <= |matches|
      invariant hits == AllHits(matches[..k], captureColors, groupSectionIndexes)
      invariant Laid(hits, font, sections, newSectionInfo, previousMatchEnd)
    {
      sections, newSectionInfo, previousMatchEnd :=
        LayoutCaptures(font, matches[k], captureColors, groupSectionIndexes, hits, sections, newSectionInfo, previousMatchEnd);
      AllHitsSnoc(matches, k, captureColors, groupSectionIndexes);
      hits := hits + MatchHits(matches[k], captureColors, groupSectionIndexes);
      k := k + 1;
    }
    assert matches[..|matches|] == matches;

    sections, newSectionInfo := PushClosingGap(font, |text|, hits, sections, newSectionInfo, previousMatchEnd);
    job := LayoutJob(text, sections);
    newSectionIndexMap := newSectionInfo;
  }

  /** The closing step of `input_layouter`: a plain section from the end of
      the last group to the end of the text, when that is not empty. */
  method PushClosingGap(
    font: FontId, len: nat, ghost hits: seq<Hit>,
    sections: seq<LayoutSection>, newSectionInfo: seq<Option<nat>>, previousMatchEnd: nat)
    returns (sections': seq<LayoutSection>, newSectionInfo': seq<Option<nat>>)
    requires Laid(hits, font, sections, newSectionInfo, previousMatchEnd)
    ensures sections' == RenderAll(Pieces(hits, len), font) && newSectionInfo' == InfoAll(Pieces(hits, len))
  {
    var gap := GapBefore(previousMatchEnd, len);
    RenderSnoc(EmittedPieces(hits), gap, font);
    if previousMatchEnd < len {
      assert RenderAll(gap, font) == [LayoutSection(Range(previousMatchEnd, len), Plain(font))];
      newSectionInfo' := newSectionInfo + [None];
      sections' := sections + [LayoutSection(Range(previousMatchEnd, len), Plain(font))];
    } else {
      assert gap == [] && EmittedPieces(hits) + gap == EmittedPieces(hits);
      sections', newSectionInfo' := sections, newSectionInfo;
    }
  }

  // ---------------------------------------------------------------------
  // What the pieces of input_layouter amount to

  /** The groups among the pieces, in order. */
  function HitsIn(ps: seq<Piece>): seq<Hit> {
    if ps == [] then []
    else HitsIn(ps[..|ps| - 1]) + (if ps[|ps| - 1].GroupPiece? then [ps[|ps| - 1].hit] else [])
  }

  lemma {:induction false} HitsInAppend(a: seq<Piece>, b: seq<Piece>)
    ensures HitsIn(a + b) == HitsIn(a) + HitsIn(b)
    decreases |b|
  {
    if b == [] {
      assert a + b == a;
    } else {
      var b' := b[..|b| - 1];
      assert (a + b)[..|a + b| - 1] == a + b';
      HitsInAppend(a, b');
    }
  }

  lemma {:induction false} EmittedHits(hits: seq<Hit>)
    ensures HitsIn(EmittedPieces(hits)) == hits
  {
    if hits != [] {
      var init, h := hits[..|hits| - 1], hits[|hits| - 1];
      var pre, gap := EmittedPieces(init), GapBefore(EndOf(init), h.range.start);
      assert hits == init + [h];
      calc {
        HitsIn(EmittedPieces(hits));
        { EmittedSnoc(init, h); }
        HitsIn(pre + gap + [GroupPiece(h)]);
        { HitsInAppend(pre + gap, [GroupPiece(h)]); HitsInGroup(h); }
        HitsIn(pre + gap) + [h];
        { HitsInAppend(pre, gap); HitsInGap(EndOf(init), h.range.start); }
        HitsIn(pre) + [h];
        { EmittedHits(init); }
        init + [h];
      }
    }
  }

  lemma HitsInGap(previousEnd: nat, start: nat)
    ensures HitsIn(GapBefore(previousEnd, start)) == []
  {
    var gap := GapBefore(previousEnd, start);
    if gap != [] {
      assert gap[..0] == [];
    }
  }

  lemma HitsInGroup(h: Hit)
    ensures HitsIn([GroupPiece(h)]) == [h]
  {
    assert [GroupPiece(h)][..0] == [];
  }

  /** Every group that took part in a match gets its own section, in match
      order and in group order within a match: leaving out the gaps gives
      back exactly the participating groups. */
  lemma PiecesHits(hits: seq<Hit>, len: nat)
    ensures HitsIn(Pieces(hits, len)) == hits
  {
    EmittedHits(hits);
    var tail := GapBefore(EndOf(hits), len);
    HitsInAppend(EmittedPieces(hits), tail);
    if tail != [] {
      assert tail[..0] == [];
    }
  }

  /** Each gap is non-empty, starts at 0 or where the group before it ends,
      and ends where the group after it starts. */
  predicate GapsJoin(ps: seq<Piece>) {
    forall k :: 0 <= k < |ps| && ps[k].Gap? ==>
      && ps[k].range.start < ps[k].range.end
      && (k == 0 ==> ps[k].range.start == 0)
      && (k > 0 ==> ps[k - 1].GroupPiece? && ps[k - 1].hit.range.end == ps[k].range.start)
      && (k + 1 < |ps| ==> ps[k + 1].GroupPiece? && ps[k + 1].hit.range.start == ps[k].range.end)
  }

  lemma {:induction false} EmittedShape(hits: seq<Hit>)
    ensures |EmittedPieces(hits)| == 0 <==> hits == []
    ensures hits != [] ==> EmittedPieces(hits)[|EmittedPieces(hits)| - 1] == GroupPiece(hits[|hits| - 1])
    ensures GapsJoin(EmittedPieces(hits))
  {
    if hits != [] {
      var init, h := hits[..|hits| - 1], hits[|hits| - 1];
      var pre := EmittedPieces(init);
      var gap := GapBefore(EndOf(init), h.range.start);
      EmittedShape(init);
      var ps := EmittedPieces(hits);
      assert ps == pre + gap + [GroupPiece(h)];
      forall k | 0 <= k < |ps| && ps[k].Gap?
        ensures ps[k].range.start < ps[k].range.end
        ensures k == 0 ==> ps[k].range.start == 0
        ensures k > 0 ==> ps[k - 1].GroupPiece? && ps[k - 1].hit.range.end == ps[k].range.start
        ensures k + 1 < |ps| ==> ps[k + 1].GroupPiece? && ps[k + 1].hit.range.start == ps[k].range.end
      {
        if k < |pre| {
          assert ps[k] == pre[k];
          if k + 1 < |pre| {
            assert ps[k + 1] == pre[k + 1];
          }
          if k > 0 {
            assert ps[k - 1] == pre[k - 1];
          }
        } else {
          assert k == |pre| && gap != [];
          assert ps[k] == gap[0] && ps[k + 1] == GroupPiece(h);
          if k > 0 {
            assert ps[k - 1] == pre[|pre| - 1];
          }
        }
      }
    }
  }

  /** The gaps of `input_layouter`: each is non-empty, starts at 0 or where the
      previous group ended, ends where the next group starts or, for the last
      section, at the end of the text. */
  lemma PiecesShape(hits: seq<Hit>, len: nat)
    ensures GapsJoin(Pieces(hits, len))
    ensures Pieces(hits, len) != [] && Pieces(hits, len)[|Pieces(hits, len)| - 1].Gap? ==>
      Pieces(hits, len)[|Pieces(hits, len)| - 1].range.end == len
  {
    EmittedShape(hits);
    var pre := EmittedPieces(hits);
    var tail := GapBefore(EndOf(hits), len);
    var ps := Pieces(hits, len);
    forall k | 0 <= k < |ps| && ps[k].Gap?
      ensures ps[k].range.start < ps[k].range.end
      ensures k == 0 ==> ps[k].range.start == 0
      ensures k > 0 ==> ps[k - 1].GroupPiece? && ps[k - 1].hit.range.end == ps[k].range.start
      ensures k + 1 < |ps| ==> ps[k + 1].GroupPiece? && ps[k + 1].hit.range.start == ps[k].range.end
    {
      if k < |pre| {
        assert ps[k] == pre[k];
        if k > 0 {
          assert ps[k - 1] == pre[k - 1];
        }
        assert k + 1 < |pre|;
        assert ps[k + 1] == pre[k + 1];
      } else {
        assert ps[k] == tail[0];
        if k > 0 {
          assert ps[k - 1] == pre[|pre| - 1];
        }
      }
    }
  }

  /** The groups come in order and do not overlap, each after the end of the
      one before and all within the text. Nested capture groups break this. */
  predicate InOrder(hits: seq<Hit>, len: nat) {
    && (forall k :: 0 <= k < |hits| ==> hits[k].range.start <= hits[k].range.end <= len)
    && (forall k :: 0 < k < |hits| ==> hits[k - 1].range.end <= hits[k].range.start)
  }

  /** The sections of one more group: its gap (if any), then its own section. */
  lemma RenderEmittedSnoc(init: seq<Hit>, h: Hit, font: FontId)
    ensures RenderAll(EmittedPieces(init + [h]), font) ==
      RenderAll(EmittedPieces(init), font) + RenderAll(GapBefore(EndOf(init), h.range.start), font)
        + [LayoutSection(h.range, Simple(font, h.color))]
  {
    var gap := GapBefore(EndOf(init), h.range.start);
    EmittedSnoc(init, h);
    RenderSnoc(EmittedPieces(init) + gap, [GroupPiece(h)], font);
    RenderSnoc(EmittedPieces(init), gap, font);
  }

  /** The sections of one more group, placed after the previous end, extend
      a tiling up to that previous end to one up to the group's end. */
  lemma EmittedTileStep(init: seq<Hit>, h: Hit, font: FontId)
    requires init == [] || Contiguous(RenderAll(EmittedPieces(init), font), EndOf(init))
    requires EndOf(init) <= h.range.start <= h.range.end
    ensures Contiguous(RenderAll(EmittedPieces(init + [h]), font), h.range.end)
  {
    var gap := GapBefore(EndOf(init), h.range.start);
    var group := LayoutSection(h.range, Simple(font, h.color));
    var g := LayoutSection(Range(EndOf(init), h.range.start), Plain(font));
    RenderEmittedSnoc(init, h, font);
    var sofar := RenderAll(EmittedPieces(init), font);
    if gap == [] {
      assert RenderAll(gap, font) == [];
      if init == [] {
        assert sofar + [] + [group] == [group];
        ContiguousSingle(group);
      } else {
        ContiguousSnoc(sofar, EndOf(init), group);
      }
    } else {
      assert RenderAll(gap, font) == [g];
      if init == [] {
        assert sofar + [g] + [group] == [g] + [group];
        ContiguousSingle(g);
        ContiguousSnoc([g], h.range.start, group);
      } else {
        ContiguousSnoc(sofar, EndOf(init), g);
        ContiguousSnoc(sofar + [g], h.range.start, group);
      }
    }
  }

  lemma {:induction false} EmittedTile(hits: seq<Hit>, len: nat, font: FontId)
    requires hits != [] && InOrder(hits, len)
    ensures Contiguous(RenderAll(EmittedPieces(hits), font), EndOf(hits))
  {
    var init, h := hits[..|hits| - 1], hits[|hits| - 1];
    assert hits == init + [h];
    if init != [] {
      assert InOrder(init, len);
      EmittedTile(init, len, font);
      assert EndOf(init) == hits[|hits| - 2].range.end;
    }
    EmittedTileStep(init, h, font);
  }

  /** When the participating groups come in order and do not overlap, the
      sections of `input_layouter` tile the whole text, groups and gaps in
      turn, with no byte left out and none drawn twice. */
  lemma PiecesTile(hits: seq<Hit>, len: nat, font: FontId)
    requires InOrder(hits, len)
    requires hits != [] || len > 0
    ensures Contiguous(RenderAll(Pieces(hits, len), font), len)
  {
    var tail := GapBefore(EndOf(hits), len);
    RenderSnoc(EmittedPieces(hits), tail, font);
    var g := LayoutSection(Range(EndOf(hits), len), Plain(font));
    if hits == [] {
      assert EmittedPieces(hits) == [] && RenderAll(tail, font) == [g];
      ContiguousSingle(g);
    } else {
      EmittedTile(hits, len, font);
      if tail == [] {
        assert EmittedPieces(hits) + tail == EmittedPieces(hits);
      } else {
        assert RenderAll(tail, font) == [g];
        ContiguousSnoc(RenderAll(EmittedPieces(hits), font), EndOf(hits), g);
      }
    }
  }
}
