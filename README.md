# Regex visualiser text decoration, in Dafny

This project models the text-decoration engine of a regex visualiser. It takes a
regular expression and an input text and produces egui layout jobs: coloured,
tiled "layout sections" over the bytes of the text. It also builds the tables
that map capture groups to glyph ranges. Three source files hold the engine.

- `src/app/text.rs`:
  - glyph counting and the byte-range to glyph-range conversion;
  - `regex_parse_ast` and `layout_matched_text`, which mark every byte with
    the last capture group covering it and run-length encode the markers into
    sections;
  - `layout_regex_err`, the 1-, 3- or 5-section highlighting of a malformed
    regex.
- `src/app/loop_vec.rs`: `LoopVec`, a vector with a cursor that wraps at both
  ends.
- `src/app/parsing.rs`: an older layout pass.
  - `layout_regex` merges runs of literals inside a concatenation and records
    each capturing group's section.
  - `input_layouter` interleaves group sections with plain gap sections and
    keeps a parallel section-index map.

Modules, one file each:

| file | module | models |
|---|---|---|
| `rust_std.dfy` | `RustStd` | `Option`, `Range`, UTF-8 bytes, char boundaries, `str::get` |
| `egui.dfy` | `Egui` | `Color32`, `FontId`, `TextFormat`, `LayoutSection`, `LayoutJob` |
| `colors.dfy` | `Colors` | the palette of `src/app/colors.rs` and `TextFormat::background` |
| `regex_crate.dfy` | `RegexCrate` | the `Captures` of one match |
| `glyphs.dfy` | `Glyphs` | `str_glyph_count`, `convert_byte_range_to_char_range` |
| `sections.dfy` | `Sections` | the marker array and its run-length encoding, shared by both layouts of `text.rs` |
| `text.dfy` | `Text` | `regex_parse_ast`, `layout_regex_err`, `layout_matched_text` |
| `loop_vec.dfy` | `LoopVecs` | `LoopVec` |
| `parsing.dfy` | `Parsing` | `layout_regex`, `input_layouter` |

Representation choices:

- Text is a sequence of bytes. A byte is a char boundary when it is not a UTF-8
  continuation byte (0x80–0xBF). Index 0 and the length are always boundaries.
  `str::get` returns `None` exactly when an end is out of bounds, not on a
  boundary, or the range is reversed.
- A glyph is a char other than `'\n'`, because egui lays out no glyph for a
  newline.
- Colours are symbolic: `Transparent`, `White`, `Red` and `DefaultText` stand
  for egui's constants, and `Rgb` holds the palette's RGB values. A
  `TextFormat` is its font, foreground and background. Its other fields keep
  their defaults throughout the source.
- The font comes from `FontSelection::resolve` in the source. Here it is a
  parameter with no structure.
- The imperative parts are methods. The marker array is an `array<nat>` filled
  in place, and the `windows(2)` loops, `layout_regex`'s `while let` loop and
  `input_layouter`'s nested loops are `while` loops. Each method is proved
  against a specification function, and the lemmas state what the source
  promises about that function.
- `LoopVec` is a class. `inc` and `dec` update its index in place. Its elements are a `const` field: the source never replaces the vector.

## Model

| member | source | states |
|---|---|---|
| RustStd.Get | src/app/text.rs:26-27 | `str::get` succeeds exactly on an in-bounds range with both ends on char boundaries, and then yields exactly the bytes of that range |
| RustStd.CountAppend | src/app/text.rs:36 | counting bytes with a property is additive over concatenation |
| Glyphs.CharsSplit | src/app/text.rs:33-37 | the chars of a string split into its newlines and its visible chars |
| Glyphs.StrGlyphCount | src/app/text.rs:35-37 | chars minus newlines never underflows and equals the number of visible chars |
| Glyphs.GlyphCountAppend | src/app/text.rs:28-29 | the glyph count of a concatenation is the sum of the glyph counts |
| Glyphs.GlyphCountPrefix | src/app/text.rs:25-31 | a longer prefix never has fewer glyphs, so converted offsets are monotone in byte offsets |
| Glyphs.ConvertByteRangeToCharRange | src/app/text.rs:25-31 | `None` exactly when the prefix or the range is refused by `str::get`; otherwise the glyph counts of the prefixes ending at start and end, a length equal to the slice's glyph count, within the text's glyphs |
| Sections.LastCover | src/app/text.rs:96-100 | the marker of a byte is 0 exactly when no group covers it; otherwise it is the 1-based index of a covering group after which no group covers it |
| Sections.LastCoverSnoc | src/app/text.rs:98-99 | one more fill overwrites exactly the bytes it covers and leaves the other markers as they were |
| Sections.Fill | src/app/text.rs:99 | `fill` sets every marker in the range to the value and leaves every other marker unchanged |
| Sections.Paint | src/app/text.rs:97-100 | after the fills each byte holds the index of the last group covering it, or its old marker when none does |
| Sections.GroupRuns | src/app/text.rs:102-124 | the `windows(2)` loop yields sections that tile the markers contiguously, are uniform inside and differ between neighbours, each white on the colour of its marker |
| Sections.RunEncodingUnique | src/app/text.rs:102-124 | two run encodings of the same markers have the same sections, so the encoding is fully determined |
| Sections.RunEnd | src/app/text.rs:107-116 | a section ends at the first later byte with another marker, or at the end of the text |
| Sections.NextChangeSpec | src/app/text.rs:107-116 | the point where the marker changes is the unique end of a uniform stretch |
| Sections.ContiguousSnoc | src/app/text.rs:108-115 | a tiling of the bytes so far extends by a section that starts where it ends |
| Sections.SectionOf | src/app/text.rs:102-124 | every byte lies in exactly one section of a contiguous tiling |
| Sections.ContiguousOrdered | src/app/text.rs:102-124 | the sections of a tiling are in order and do not overlap |
| Sections.ByteColour | src/app/text.rs:112 | every byte is drawn on the colour of its own marker |
| Colors.Background | src/app/colors.rs:24-33 | `TextFormat::background`: the given font and background, with white text |
| RegexCrate.GroupsOf | src/app/text.rs:231-233 | skipping slot 0 leaves one slot per real capture group, and nothing for an empty match list |
| RegexCrate.GroupsOfSkip | src/app/parsing.rs:132-134 | real group `j` is capture slot `j+1` |
| Text.MaxDepth | src/app/text.rs:67-71 | the largest walker depth, attained by some group, 0 with no groups |
| Text.GroupSlots | src/app/text.rs:96-100 | one fill per walker group, in walker order, each over that group's range |
| Text.CaptureGroupColors | src/app/text.rs:85-94 | length N+1, transparent at index 0, `BACKGROUND_COLORS[(i-1) mod 3]` at index i, no group transparent and neighbouring groups differently coloured |
| Text.RegexMarks | src/app/text.rs:96-100 | one marker per regex byte, the last group covering it, never more than the number of groups |
| Text.CaptureGroupChars | src/app/text.rs:73-83 | one entry per walker group in order, depth inverted against the deepest group (deeper groups get smaller values), range converted to glyphs and within the regex's glyphs |
| Text.MarkGroups | src/app/text.rs:96-100 | the marker array built in place is exactly the regex's marker function |
| Text.RegexParseAst | src/app/text.rs:51-135 | the empty regex gives the default layout; otherwise the text is the regex, the tables are as above and the sections are the run encoding of the markers, coloured by marker |
| Text.PlainText | src/app/text.rs:145-151 | a section over the given bytes in the given font, red text on no background, so not highlighted |
| Text.Highlight | src/app/text.rs:153-164 | a highlighted section over the given bytes, in white |
| Text.SpanMin | src/app/text.rs:175 | `Ord::min` on spans: one of the two, not above either in span order |
| Text.SpanMax | src/app/text.rs:176 | `Ord::max` on spans: one of the two, not below either in span order |
| Text.LayoutRegexErr | src/app/text.rs:138-197 | a compile error highlights everything; a parse error gives plain, highlighted, plain around its span, or five sections with the two spans highlighted (white text on the error background in the given font) in `Ord` order and plain text between; both tables empty |
| Text.ErrLayoutTiles | src/app/text.rs:167-186 | for in-bounds, non-overlapping spans the error sections tile the regex contiguously |
| Text.MatchCover | src/app/text.rs:238-245 | the marker one match leaves on a byte is at most its number of groups, and when non-zero names a group that covers the byte |
| Text.MatchMarkZero | src/app/text.rs:227-245 | a text byte is unmarked exactly when no group of any match covers it |
| Text.MatchMarkLast | src/app/text.rs:227-245 | a marked byte holds the group index given by the last match covering it, and no later match covers it |
| Text.MatchMarks | src/app/text.rs:226-245 | one marker per text byte, each the marker the painted matches leave on it |
| Text.MatchRow | src/app/text.rs:229-253 | one slot per capture group after group 0; a slot is `None` exactly when the group did not take part, otherwise the converted glyph range |
| Text.MarkMatches | src/app/text.rs:226-254 | the marker array after the loop over matches is the match marker function, and one row per match |
| Text.LayoutMatchedText | src/app/text.rs:209-291 | empty text gives the default; an empty pattern gives one plain section and no rows; otherwise one row per match and sections that run-encode the markers, coloured by marker |
| Egui.Simple | src/app/parsing.rs:152-156 | `TextFormat::simple`: the given font and colour on no background |
| Egui.Plain | src/app/text.rs:294-300 | a format with only the font set: the default text colour on no background |
| Egui.SingleSection | src/app/parsing.rs:182-188 | `LayoutJob::single_section`: the text with exactly one section, over bytes 0 to its length, in the given format |
| Text.LayoutPlainText | src/app/text.rs:294-302 | the text in one section covering all of it, in the default text colour on no background |
| LoopVecs.Incremented | src/app/loop_vec.rs:55-59 | the index after `inc` stays in bounds, and is unchanged on an empty vec |
| LoopVecs.Decremented | src/app/loop_vec.rs:62-64 | the index after `dec` stays in bounds |
| LoopVecs.IncDecInverse | src/app/loop_vec.rs:55-64 | on an index in bounds, `dec` undoes `inc` and `inc` undoes `dec` |
| LoopVecs.IncVisitsAll | src/app/loop_vec.rs:54-59 | from the start, `inc` visits every index in order and comes back to 0 after `len` steps |
| LoopVecs.LoopVec.New | src/app/loop_vec.rs:33-38 | an empty vec at index 0 |
| LoopVecs.LoopVec.Default | src/app/loop_vec.rs:9-13 | the same as `new` |
| LoopVecs.LoopVec.FromIter | src/app/loop_vec.rs:23-30 | the collected elements at index 0 |
| LoopVecs.LoopVec.GetCurrent | src/app/loop_vec.rs:40-43 | the element at the index, `None` exactly when the index is past the end |
| LoopVecs.LoopVec.Index | src/app/loop_vec.rs:49-52 | exactly the stored index, and in bounds whenever the vec has elements |
| LoopVecs.LoopVec.Inc | src/app/loop_vec.rs:54-59 | `(index+1) mod len`, unchanged on an empty vec; the index stays in bounds |
| LoopVecs.LoopVec.Dec | src/app/loop_vec.rs:61-64 | on a non-empty vec, `index-1`, or `len-1` from 0; the index stays in bounds |
| LoopVecs.DecrementedUsize | src/app/loop_vec.rs:62-64 | `dec` as written, with `usize` wrap-around: a `usize` again, and the intended step whenever the vec is not empty |
| LoopVecs.DecOnEmptyBreaksInvariant | src/app/loop_vec.rs:62-64 | on an empty vec `dec` as written sets the index to `usize::MAX`, which is neither in bounds nor 0, and the next `inc` overflows |
| LoopVecs.DecrementedOrStay | src/app/loop_vec.rs:55-64 | the intended `dec`: one step back within bounds on a non-empty vec, no change on an empty one, as `inc` does |
| LoopVecs.IncDecOrStayInverse | src/app/loop_vec.rs:55-64 | the intended `dec` and `inc` undo each other on every valid index, the empty vec included |
| LoopVecs.LoopVec.DecOrStay | src/app/loop_vec.rs:61-64 | the intended `dec` on the object: callable on an empty vec, where it leaves the index at 0; the index stays in bounds |
| Parsing.LayoutRegex | src/app/parsing.rs:49-113 | a non-concatenation root gives one blue section, with `[0]` for a capturing group and `[]` otherwise; inside a concatenation every emitting child has its own section in order, the capture table lists the capturing children's sections, and children laid end to end give sections that tile the regex |
| Parsing.SectionCountPrefix | src/app/parsing.rs:80-101 | after any prefix of the children, the sections so far plus an open literal run are the non-literal children plus the literal runs |
| Parsing.SectionCount | src/app/parsing.rs:80-101 | a concatenation has one section per non-literal child plus one per maximal run of literals |
| Parsing.EmittedGrows | src/app/parsing.rs:96-100 | a child that emits takes a section index below every later child's |
| Parsing.SectionsFromChildren | src/app/parsing.rs:81-100 | every section comes from exactly one emitting child |
| Parsing.FirstEmitting | src/app/parsing.rs:81-100 | every section so far comes from an earlier emitting child |
| Parsing.RunStartIsFirstLiteral | src/app/parsing.rs:80-94 | a literal run's section starts at its first literal, or at 0 for a run that opens the regex |
| Parsing.Emits | src/app/parsing.rs:81-90 | a child closes a section unless it is a literal followed by a literal: every non-literal and the last child close one, and a literal does exactly when the next child is not a literal |
| Parsing.CaptureSectionsSpec | src/app/parsing.rs:85-87 | one entry per capturing child, each below the number of sections, each the section of some capturing child, strictly increasing |
| Parsing.Emitted | src/app/parsing.rs:81-100 | at most one section per child so far, and at least one for a non-empty concatenation |
| Parsing.ChildRange | src/app/parsing.rs:82-98 | a section ends where its child ends, and a non-literal child's section is the child's own span |
| Parsing.ChildSection | src/app/parsing.rs:96-100 | a child's section covers its range in a foreground colour on no background |
| Parsing.CaptureSections | src/app/parsing.rs:85-87 | at most one table entry per child |
| Parsing.SpanChain | src/app/parsing.rs:81-100 | in children laid end to end, a child never starts after a later child ends |
| Parsing.SpanBelow | src/app/parsing.rs:81-100 | in children laid end to end, every child ends within the regex |
| Parsing.RunBack | src/app/parsing.rs:80-94 | children that do not emit are literals of one run with the child after them, so they share its section start |
| Parsing.EmittedFlat | src/app/parsing.rs:81-83 | children that do not emit leave the section count unchanged |
| Parsing.StretchBefore | src/app/parsing.rs:81-83 | before each child lies a stretch of children that do not emit, begun by an emitting child or the front |
| Parsing.EmitterStart | src/app/parsing.rs:80-100 | in children laid end to end, a section starts at 0 when it is the first, otherwise where the section before it ends, and never ends before it starts |
| Parsing.ConcatSectionsTile | src/app/parsing.rs:80-101 | children laid end to end over the regex give sections that tile it: no byte left uncoloured, none coloured twice |
| Parsing.SectionColours | src/app/parsing.rs:52-100 | section `q` takes colour `q mod 3` of the foreground cycle, so neighbouring sections differ in colour |
| Parsing.Min3 | src/app/parsing.rs:132-136 | the shortest of three lengths: not above any of them, and equal to one |
| Parsing.HitsUpTo | src/app/parsing.rs:132-137 | at most one group per zipped slot, exactly one when every group took part, each group's colour and entry taken from the tables |
| Parsing.MatchHits | src/app/parsing.rs:132-137 | the zip stops at the shortest of groups, colours and entries, and takes each colour and entry from the tables |
| Parsing.AllHits | src/app/parsing.rs:131-137 | every group of every match is drawn in a colour of the colour table with an entry of the section table |
| Parsing.AllHitsSnoc | src/app/parsing.rs:131-137 | the matches are consumed one at a time, in order |
| Parsing.EndOf | src/app/parsing.rs:129-158 | `previous_match_end`: 0 before any group, then the end of the last group |
| Parsing.GapBefore | src/app/parsing.rs:139-149 | a gap is pushed exactly when a group starts after the previous end, and then covers exactly the bytes between |
| Parsing.EmittedCount | src/app/parsing.rs:139-158 | the loops push one section per group and at most one gap before each |
| Parsing.Pieces | src/app/parsing.rs:139-172 | with the closing gap, at most one more piece |
| Parsing.Render | src/app/parsing.rs:141-156 | a gap becomes a section over its range in the default text colour, a group one over its match in its own colour; both in the given font on no background |
| Parsing.Info | src/app/parsing.rs:140-152 | the `section_index_map` entry of a piece: none for a gap, the group's section for a group |
| Parsing.RenderAll | src/app/parsing.rs:141-171 | one section per piece, in order |
| Parsing.InfoAll | src/app/parsing.rs:140-163 | one `section_index_map` entry per piece, in order |
| Parsing.RenderSnoc | src/app/parsing.rs:139-172 | rendering is pushed piece by piece, in order |
| Parsing.HitsSnoc | src/app/parsing.rs:132-137 | the zipped groups are consumed one at a time, skipping the groups that did not take part |
| Parsing.EmittedSnoc | src/app/parsing.rs:139-158 | a group is preceded by a gap exactly when the previous match ended before it starts, and it moves the previous end to its own end |
| Parsing.PushHit | src/app/parsing.rs:139-158 | one participating group pushes a gap section with a `None` entry when it starts after the previous end, then its own section with its entry, and moves the previous end to its end |
| Parsing.LayoutCaptures | src/app/parsing.rs:132-159 | the inner loop over one match pushes exactly that match's gaps and groups onto both tables |
| Parsing.PushClosingGap | src/app/parsing.rs:162-172 | after the loops, a plain section with a `None` entry runs from the previous end to the text end exactly when that is not empty |
| Parsing.InputLayouter | src/app/parsing.rs:115-189 | an `Err` regex gives one plain section and leaves the map as it was; otherwise the sections and the new map are the rendering of the gap and group pieces, of equal length |
| Parsing.HitsInAppend | src/app/parsing.rs:139-172 | the groups among the pieces are additive over concatenation |
| Parsing.EmittedHits | src/app/parsing.rs:139-158 | the group sections are exactly the participating groups in order |
| Parsing.PiecesHits | src/app/parsing.rs:139-172 | adding the final gap adds no group section |
| Parsing.EmittedShape | src/app/parsing.rs:139-158 | every gap is non-empty, starts at 0 or where the previous group ends, and ends where the next group starts |
| Parsing.EmittedTileStep | src/app/parsing.rs:139-158 | a group placed at or after the previous end extends the tiling of the text so far, through its gap, up to its own end |
| Parsing.EmittedTile | src/app/parsing.rs:131-160 | for groups in order and not overlapping, the sections of the loops tile the text from 0 to the end of the last group |
| Parsing.PiecesTile | src/app/parsing.rs:125-180 | for groups in order and not overlapping, the sections tile the whole text contiguously, with no byte left out and none drawn twice |
| Parsing.PiecesShape | src/app/parsing.rs:139-172 | every gap is non-empty and joins its neighbours, and a final gap ends at the end of the text |

## Left out

- The capture-group walker `ast_find_capture_groups`, which is not part of this model. Its output is an input: a sequence of depths and byte ranges in capture-index order.
- Regex parsing and matching. `compile_regex` and `captures_iter` are foreign calls into the regex crates. Their results are inputs: a parse error with its spans, and the matches as sequences of optional group ranges. `replace_all` and the UI that uses it are outside this model.
- `glyph_bounds` and the rest of the geometry in `layout.rs` and `shape.rs`. It is floating-point `Rect` arithmetic.
- The UI (`ui.rs` and `ui/`), `app.rs`, `main.rs` and `state.rs`. They are egui plumbing and orchestration, and `state.rs` calls these functions with signatures that no longer match them.
- `LayoutSection::leading_space` is always `0.0`, a float, and is not kept. The remaining `TextFormat` and `LayoutJob` fields keep their defaults throughout the source and are not kept either.
- `GetRangeExt::range` only turns a span into a range; a span is a `Range` here.
- `LoopVec::get_current_mut`. The source changes elements in place through it: the inspector (`src/app/ui/inspector.rs:78-97`) calls `inc` and `dec` on the current element, itself a `LoopVec`. The model has no such operation. `Deref` only reads the vector, which `vec` makes visible.
- LoopVecs.LoopVec.Dec: requires a non-empty vec, because `len() - 1` underflows there (`unwrap_or` evaluates it eagerly). A debug build panics. The release build's wrap-around is `LoopVecs.DecrementedUsize`, and the corrected operation is `LoopVecs.LoopVec.DecOrStay` (see Findings).
- LoopVecs.LoopVec.Inc: does not model the overflow of `index + 1` at the largest `usize`, since the index is below the length.
- Text.RegexParseAst: requires every non-empty regex's group range to be a valid `str` range; the source's `unwrap` and slice indexing panic otherwise.
- Text.LayoutMatchedText: requires the match ranges to be valid `str` ranges of the text and every marker to index the colour table. The source panics otherwise.
- Text.CaptureGroupChars and Text.MatchRow: the `unwrap` of the conversion is a precondition, not a panic.
- `regex_parse_ast` takes a `_previous_layout` argument it never reads, so the model has no such parameter.
- Parsing.InputLayouter: `captures_iter` matches are taken as given and the model does not assume they are ordered or disjoint. Its contract says what the sections are; `Parsing.PiecesTile` shows that they tile the text when the participating groups come in order and do not overlap. Nested capture groups overlap, and then the source emits overlapping sections.
- The validity of UTF-8 byte sequences is not modelled. Any byte that is not a continuation byte counts as the start of a char.
- `parsing.rs` names a type `RegexOutput` that it never defines. Here it is `Ok` with the matches, or `Err`, as its `match` uses it.

Behaviour worth noting:

- On empty text `layout_matched_text` returns the default layout, which has no sections, rather than one empty plain section.
- `TextFormat::background` always draws white text. The sections of `regex_parse_ast` and `layout_matched_text` therefore have a white foreground even over the transparent placeholder colour.
- `layout_matched_text` colours a byte by the group index within the last match covering it. The colour of an earlier, overwritten match does not carry over.

## Findings

| source | as written | input that shows it | evidently intended | confidence | as-written member | corrected member |
|---|---|---|---|---|---|---|
| src/app/loop_vec.rs:62-64 | `checked_sub(1).unwrap_or(self.len() - 1)` evaluates `len() - 1` even when the subtraction from the index succeeds, and the inspector's `<` buttons (`src/app/ui/inspector.rs:62-64`, `81-84`) call `dec` without checking for emptiness | an empty `LoopVec` (no matches, or a match with no groups) at index 0, then `dec`: a debug build panics, a release build sets the index to `usize::MAX`, after which the index is neither in bounds nor 0 and `inc` overflows `index + 1` | leave the index alone on an empty vec, as `inc` does, so that `inc` and `dec` stay inverse on every valid index | not executed | LoopVecs.DecrementedUsize, LoopVecs.DecOnEmptyBreaksInvariant | LoopVecs.DecrementedOrStay, LoopVecs.IncDecOrStayInverse, LoopVecs.LoopVec.DecOrStay |
