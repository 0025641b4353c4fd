/** Glyph counting and the byte-range to glyph-range conversion of
    src/app/text.rs. egui lays out one glyph per char except `'\n'`, so a
    glyph index is a char index with the newlines before it left out. */
module Glyphs {
  import opened RustStd

  /** Chars of a UTF-8 string: the bytes that are not continuation bytes. */
  function CharCount(s: seq<byte>): nat {
    Count(s, b => !IsContinuation(b))
  }

  /** `text.matches('\n').count()`. */
  function NewlineCount(s: seq<byte>): nat {
    Count(s, b => b == NEWLINE)
  }

  /** Reference count: the bytes that start a char other than a newline. */
  function VisibleCount(s: seq<byte>): nat {
    Count(s, b => !IsContinuation(b) && b != NEWLINE)
  }

  /** Every newline is a char of its own, so the chars split into newlines and visible ones. */
  lemma {:induction false} CharsSplit(s: seq<byte>)
    ensures CharCount(s) == VisibleCount(s) + NewlineCount(s)
  {
    if s != [] {
      CharsSplit(s[1..]);
    }
  }

  /** `str_glyph_count`: chars minus newlines. The subtraction never underflows,
      and the result is the number of visible chars. */
  function StrGlyphCount(s: seq<byte>): (r: nat)
    ensures r == VisibleCount(s)
    ensures r + NewlineCount(s) == CharCount(s)
  {
    CharsSplit(s);
    CharCount(s) - NewlineCount(s)
  }

  lemma GlyphCountAppend(a: seq<byte>, b: seq<byte>)
    ensures StrGlyphCount(a + b) == StrGlyphCount(a) + StrGlyphCount(b)
  {
    CountAppend(a, b, x => !IsContinuation(x) && x != NEWLINE);
  }

  /** Glyph count of a prefix never exceeds that of a longer prefix. */
  lemma GlyphCountPrefix(s: seq<byte>, i: nat, j: nat)
    requires i <= j <= |s|
    ensures StrGlyphCount(s[..i]) <= StrGlyphCount(s[..j])
  {
    assert s[..j] == s[..i] + s[i..j];
    GlyphCountAppend(s[..i], s[i..j]);
  }

  /** `convert_byte_range_to_char_range`: `None` exactly when `str::get` refuses
      the prefix `0..start` or the range itself; otherwise the glyph range
      whose ends are the glyph counts of the prefixes ending at `start` and
      `end`, whose length is the glyph count of the slice, and which lies
      within the glyphs of the whole text. */
  function ConvertByteRangeToCharRange(range: Range, text: seq<byte>): (o: Option<Range>)
    ensures o.Some? <==> IsStrRange(text, range)
    ensures o.Some? ==>
      && o.value.start == StrGlyphCount(text[..range.start])
      && o.value.end == StrGlyphCount(text[..range.end])
      && o.value.end - o.value.start == StrGlyphCount(text[range.start..range.end])
      && o.value.start <= o.value.end <= StrGlyphCount(text)
  {
    match Get(text, Range(0, range.start))
    case None => None
    case Some(head) =>
      match Get(text, range)
      case None => None
      case Some(tail) =>
        var headOffset := StrGlyphCount(head);
        var tailOffset := headOffset + StrGlyphCount(tail);
        assert head == text[..range.start];
        assert text[..range.end] == head + tail;
        GlyphCountAppend(head, tail);
        assert text == text[..range.end] + text[range.end..];
        GlyphCountAppend(text[..range.end], text[range.end..]);
        Some(Range(headOffset, tailOffset))
  }
}
