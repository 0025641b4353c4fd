/** The egui text-layout types the core produces, reduced to the fields it sets.
    `leading_space` is always 0.0 and the remaining `LayoutJob` settings are
    left at their defaults, so neither appears here. */
module Egui {
  import opened RustStd

  /** `Color32`. The library's named constants stay symbolic; colours the
      repository defines by their RGB value are `Rgb`. */
  datatype Color32 =
    | Transparent
    | White
    | Red
    /** The text colour of `TextFormat::default()`. */
    | DefaultText
    | Rgb(r: byte, g: byte, b: byte)

  /** A resolved font. The core never looks inside it. */
  datatype FontId = FontId(id: nat)

  /** `TextFormat`: font, foreground colour and background colour. */
  datatype TextFormat = TextFormat(fontId: FontId, color: Color32, background: Color32)

  datatype LayoutSection = LayoutSection(byteRange: Range, format: TextFormat)

  datatype LayoutJob = LayoutJob(text: seq<byte>, sections: seq<LayoutSection>)

  /** `LayoutJob::default()`. */
  const DefaultJob := LayoutJob([], [])

  /** `TextFormat::simple`: the given foreground on no background. */
  function Simple(font: FontId, color: Color32): (f: TextFormat)
    ensures f.fontId == font && f.color == color && f.background == Transparent
  {
    TextFormat(font, color, Transparent)
  }

  /** `TextFormat { font_id, ..Default::default() }`. */
  function Plain(font: FontId): (f: TextFormat)
    ensures f.fontId == font && f.color == DefaultText && f.background == Transparent
  {
    TextFormat(font, DefaultText, Transparent)
  }

  /** `LayoutJob::single_section`: one section over the whole text. */
  function SingleSection(text: seq<byte>, format: TextFormat): (job: LayoutJob)
    ensures job.text == text && |job.sections| == 1
    ensures job.sections[0].byteRange == Range(0, |text|) && job.sections[0].format == format
  {
    LayoutJob(text, [LayoutSection(Range(0, |text|), format)])
  }
}
