/** The two steps that `regex_parse_ast` and `layout_matched_text` in
    src/app/text.rs share: marking every byte with the capture group that
    colours it (a later write wins), and cutting the marker array into
    maximal runs of equal markers, one layout section per run. */
module Sections {
  import opened RustStd
  import opened Egui
  import opened Colors

  predicate Covers(slot: Option<Range>, i: nat) {
    slot.Some? && slot.value.start <= i < slot.value.end
  }

  /** The marker of byte `i` after `slots[j]` has been filled with `j + 1`
      for each `j` in order: the 1-based index of the last slot covering `i`,
      or 0 when none does. */
  function LastCover(slots: seq<Option<Range>>, i: nat): (v: nat)
    ensures v <= |slots|
    ensures v == 0 <==> forall j :: 0 <= j < |slots| ==> !Covers(slots[j], i)
    ensures v > 0 ==> Covers(slots[v - 1], i) && forall j :: v <= j < |slots| ==> !Covers(slots[j], i)
  {
    if slots == [] then 0
    else if Covers(slots[|slots| - 1], i) then |slots|
    else LastCover(slots[..|slots| - 1], i)
  }

  /** One more slot written after `slots`. */
  lemma LastCoverSnoc(slots: seq<Option<Range>>, s: Option<Range>, i: nat)
    ensures LastCover(slots + [s], i) == if Covers(s, i) then |slots| + 1 else LastCover(slots, i)
  {
    assert (slots + [s])[..|slots|] == slots;
  }

  /** `slice[range].fill(v)`. */
  method Fill(a: array<nat>, r: Range, v: nat)
    requires r.start <= r.end <= a.Length
    modifies a
    ensures forall i :: 0 <= i < a.Length ==> a[i] == if r.start <= i < r.end then v else old(a[i])
  {
    var k := r.start;
    while k < r.end
      invariant r.start <= k <= r.end
      invariant forall i :: 0 <= i < a.Length ==> a[i] == if r.start <= i < k then v else old(a[i])
    {
      a[k] := v;
      k := k + 1;
    }
  }

  /** The marker of byte `i` once `slots` are painted over `before`. */
  ghost function Painted(slots: seq<Option<Range>>, before: seq<nat>, i: nat): nat
    requires i < |before|
  {
    var g := LastCover(slots, i);
    if g > 0 then g else before[i]
  }

  lemma PaintedSnoc(slots: seq<Option<Range>>, s: Option<Range>, before: seq<nat>, i: nat)
    requires i < |before|
    ensures Painted(slots + [s], before, i) == if Covers(s, i) then |slots| + 1 else Painted(slots, before, i)
  {
    LastCoverSnoc(slots, s, i);
  }

  /** Fill each present slot `j` with `j + 1`, in slot order, over the markers
      already in the array: afterwards a byte holds the index of the last slot
      covering it and keeps its old marker when none does. */
  method Paint(marks: array<nat>, slots: seq<Option<Range>>)
    requires forall j :: 0 <= j < |slots| && slots[j].Some? ==> slots[j].value.start <= slots[j].value.end <= marks.Length
    modifies marks
    ensures forall i :: 0 <= i < marks.Length ==>
      marks[i] == (var g := LastCover(slots, i); if g > 0 then g else old(marks[i]))
  {
    ghost var before := marks[..];
    var j := 0;
    while j < |slots|
      invariant 0 <= j <= |slots|
      invariant forall i :: 0 <= i < marks.Length ==> marks[i] == Painted(slots[..j], before, i)
    {
      ghost var prev := marks[..];
      if slots[j].Some? {
        Fill(marks, slots[j].value, j + 1);
      }
      assert slots[..j + 1] == slots[..j] + [slots[j]];
      forall i | 0 <= i < marks.Length
        ensures marks[i] == Painted(slots[..j + 1], before, i)
      {
        PaintedSnoc(slots[..j], slots[j], before, i);
        assert marks[i] == if Covers(slots[j], i) then j + 1 else prev[i];
      }
      j := j + 1;
    }
    assert slots[..|slots|] == slots;
  }

  /** The sections tile `0..n` in order without gap or overlap (empty sections allowed). */
  predicate Contiguous(sections: seq<LayoutSection>, n: nat) {
    && |sections| > 0
    && sections[0].byteRange.start == 0
    && sections[|sections| - 1].byteRange.end == n
    && (forall k :: 0 <= k < |sections| ==> sections[k].byteRange.start <= sections[k].byteRange.end <= n)
    && (forall k :: 0 <= k < |sections| - 1 ==> sections[k].byteRange.end == sections[k + 1].byteRange.start)
  }

  /** A single section from 0 tiles up to its end. */
  lemma ContiguousSingle(t: LayoutSection)
    requires t.byteRange.start == 0 <= t.byteRange.end
    ensures Contiguous([t], t.byteRange.end)
  {
  }

  /** A tiling extends by a section starting where it ends. */
  lemma ContiguousSnoc(sections: seq<LayoutSection>, n: nat, t: LayoutSection)
    requires Contiguous(sections, n) && t.byteRange.start == n <= t.byteRange.end
    ensures Contiguous(sections + [t], t.byteRange.end)
  {
  }

  /** The sections are the maximal runs of equal markers among the first `n`:
      they tile `0..n`, none is empty, each holds one marker value, and
      neighbours hold different values. */
  predicate Runs(marks: seq<nat>, sections: seq<LayoutSection>, n: nat)
    requires n <= |marks|
  {
    && Contiguous(sections, n)
    && (forall k :: 0 <= k < |sections| ==> sections[k].byteRange.start < sections[k].byteRange.end)
    && (forall k, i :: 0 <= k < |sections| && sections[k].byteRange.start <= i < sections[k].byteRange.end ==>
          marks[i] == marks[sections[k].byteRange.start])
    && (forall k :: 0 <= k < |sections| - 1 ==>
          marks[sections[k].byteRange.start] != marks[sections[k + 1].byteRange.start])
  }

  /** The sections are the run-length encoding of the whole marker array. */
  predicate IsRunEncoding(marks: seq<nat>, sections: seq<LayoutSection>) {
    Runs(marks, sections, |marks|)
  }

  /** Each section is drawn white on the colour of its marker. */
  predicate ColouredByMarker(marks: seq<nat>, colors: seq<Color32>, font: FontId, sections: seq<LayoutSection>) {
    forall k :: 0 <= k < |sections| ==>
      && sections[k].byteRange.start < |marks|
      && marks[sections[k].byteRange.start] < |colors|
      && sections[k].format == Background(font, colors[marks[sections[k].byteRange.start]])
  }

  /** Closing the run `head..len` extends the runs of `0..head` to runs of `0..len`. */
  lemma RunsSnoc(marks: seq<nat>, sections: seq<LayoutSection>, head: nat, len: nat, format: TextFormat)
    requires head < len <= |marks|
    requires forall i :: head <= i < len ==> marks[i] == marks[head]
    requires sections == [] ==> head == 0
    requires sections != [] ==>
      Runs(marks, sections, head) && marks[sections[|sections| - 1].byteRange.start] != marks[head]
    ensures Runs(marks, sections + [LayoutSection(Range(head, len), format)], len)
  {
  }

  /** The state of the `windows(2)` loop: the closed sections are the runs of
      `0..head`, and `head..len` is the open run, uniform and, when there are
      closed sections, of another marker than the last of them. */
  ghost predicate Pending(marks: seq<nat>, sections: seq<LayoutSection>, head: nat, len: nat) {
    && head < len <= |marks|
    && (forall i :: head <= i < len ==> marks[i] == marks[head])
    && (sections == [] ==> head == 0)
    && (sections != [] ==> Runs(marks, sections, head) && marks[sections[|sections| - 1].byteRange.start] != marks[head])
  }

  /** Equal neighbours: the open run grows by one byte. */
  lemma PendingExtend(marks: seq<nat>, sections: seq<LayoutSection>, head: nat, len: nat)
    requires Pending(marks, sections, head, len) && len < |marks| && marks[len - 1] == marks[len]
    ensures Pending(marks, sections, head, len + 1)
  {
  }

  /** Different neighbours: the open run is closed and a new one opens. */
  lemma PendingClose(marks: seq<nat>, sections: seq<LayoutSection>, head: nat, len: nat, format: TextFormat)
    requires Pending(marks, sections, head, len) && len < |marks| && marks[len - 1] != marks[len]
    ensures Pending(marks, sections + [LayoutSection(Range(head, len), format)], len, len + 1)
  {
    RunsSnoc(marks, sections, head, len, format);
  }

  lemma ColouredSnoc(marks: seq<nat>, colors: seq<Color32>, font: FontId, sections: seq<LayoutSection>, head: nat, len: nat)
    requires ColouredByMarker(marks, colors, font, sections)
    requires head < |marks| && marks[head] < |colors|
    ensures ColouredByMarker(marks, colors, font, sections + [LayoutSection(Range(head, len), Background(font, colors[marks[head]]))])
  {
  }

  /** The `windows(2)` loop: walk adjacent pairs of markers, close a section
      where they differ, and close the trailing section after the loop. */
  method GroupRuns(marks: array<nat>, colors: seq<Color32>, font: FontId) returns (sections: seq<LayoutSection>)
    requires marks.Length > 0
    requires forall i :: 0 <= i < marks.Length ==> marks[i] < |colors|
    ensures IsRunEncoding(marks[..], sections)
    ensures ColouredByMarker(marks[..], colors, font, sections)
  {
    ghost var m := marks[..];
    sections := [];
    var head := 0;
    var len := 1;
    while len < marks.Length
      invariant Pending(m, sections, head, len)
      invariant ColouredByMarker(m, colors, font, sections)
    {
      var left, right := marks[len - 1], marks[len];
      if left != right {
        PendingClose(m, sections, head, len, Background(font, colors[left]));
        ColouredSnoc(m, colors, font, sections, head, len);
        sections := sections + [LayoutSection(Range(head, len), Background(font, colors[left]))];
        head := len;
      } else {
        PendingExtend(m, sections, head, len);
      }
      len := len + 1;
    }
    RunsSnoc(m, sections, head, len, Background(font, colors[marks[head]]));
    ColouredSnoc(m, colors, font, sections, head, len);
    sections := sections + [LayoutSection(Range(head, len), Background(font, colors[marks[head]]))];
  }

  /** The run encoding is unique: any two run encodings of the same markers
      have the same sections, so `IsRunEncoding` pins the output down. */
  lemma {:induction false} RunEncodingUnique(marks: seq<nat>, s1: seq<LayoutSection>, s2: seq<LayoutSection>)
    requires IsRunEncoding(marks, s1) && IsRunEncoding(marks, s2)
    ensures |s1| == |s2|
    ensures forall k :: 0 <= k < |s1| ==> s1[k].byteRange == s2[k].byteRange
  {
    var k := 0;
    while k < |s1| && k < |s2|
      invariant 0 <= k <= |s1| && k <= |s2|
      invariant forall q :: 0 <= q < k ==> s1[q].byteRange == s2[q].byteRange
      invariant k < |s1| && k < |s2| ==> s1[k].byteRange.start == s2[k].byteRange.start
    {
      RunEnd(marks, s1, k);
      RunEnd(marks, s2, k);
      k := k + 1;
    }
    // Whichever encoding ran out first has reached the end of the markers,
    // so the other cannot start another (non-empty) section.
    assert s1[k - 1].byteRange.end == s2[k - 1].byteRange.end;
  }

  /** A run ends at the first later byte with another marker, or at the end. */
  lemma RunEnd(marks: seq<nat>, s: seq<LayoutSection>, k: nat)
    requires IsRunEncoding(marks, s) && k < |s|
    ensures s[k].byteRange.end == NextChange(marks, s[k].byteRange.start)
  {
    var st, en := s[k].byteRange.start, s[k].byteRange.end;
    if en < |marks| {
      assert s[k + 1].byteRange.start == en;
    }
    NextChangeSpec(marks, st, en);
  }

  /** The first index after `i` at which the marker differs from `marks[i]`, or `|marks|`. */
  function NextChange(marks: seq<nat>, i: nat): (j: nat)
    requires i < |marks|
    decreases |marks| - i
  {
    if i + 1 >= |marks| || marks[i + 1] != marks[i] then i + 1
    else NextChange(marks, i + 1)
  }

  lemma {:induction false} NextChangeSpec(marks: seq<nat>, i: nat, e: nat)
    requires i < e <= |marks|
    requires forall q :: i <= q < e ==> marks[q] == marks[i]
    requires e == |marks| || marks[e] != marks[i]
    ensures NextChange(marks, i) == e
    decreases |marks| - i
  {
    if i + 1 < e {
      NextChangeSpec(marks, i + 1, e);
    }
  }

  /** Every byte lies in exactly one section of a contiguous tiling. */
  lemma {:induction false} SectionOf(sections: seq<LayoutSection>, n: nat, i: nat) returns (k: nat)
    requires Contiguous(sections, n) && i < n
    ensures k < |sections| && sections[k].byteRange.start <= i < sections[k].byteRange.end
    ensures forall q :: 0 <= q < |sections| && q != k ==>
      !(sections[q].byteRange.start <= i < sections[q].byteRange.end)
  {
    k := 0;
    while sections[k].byteRange.end <= i
      invariant k < |sections| && sections[k].byteRange.start <= i
      invariant forall q :: 0 <= q < k ==> sections[q].byteRange.end <= sections[k].byteRange.start
      decreases |sections| - k
    {
      k := k + 1;
    }
    ContiguousOrdered(sections, n, k);
  }

  lemma ContiguousOrdered(sections: seq<LayoutSection>, n: nat, k: nat)
    requires Contiguous(sections, n) && k < |sections|
    ensures forall q :: k < q < |sections| ==> sections[k].byteRange.end <= sections[q].byteRange.start
  {
    var q := k + 1;
    while q < |sections|
      invariant k < q <= |sections|
      invariant forall p :: k < p < q ==> sections[k].byteRange.end <= sections[p].byteRange.start
    {
      if q > k + 1 {
        assert sections[k].byteRange.end <= sections[q - 1].byteRange.start;
      }
      q := q + 1;
    }
  }

  /** Every byte is drawn on the colour of its own marker: the overlap rule
      decided in the marker array is what the rendered sections show. */
  lemma ByteColour(marks: seq<nat>, colors: seq<Color32>, font: FontId, sections: seq<LayoutSection>, i: nat)
      returns (k: nat)
    requires forall q :: 0 <= q < |marks| ==> marks[q] < |colors|
    requires IsRunEncoding(marks, sections)
    requires ColouredByMarker(marks, colors, font, sections)
    requires i < |marks|
    ensures k < |sections| && sections[k].byteRange.start <= i < sections[k].byteRange.end
    ensures sections[k].format == Background(font, colors[marks[i]])
  {
    k := SectionOf(sections, |marks|, i);
  }
}
