/** The palette of src/app/colors.rs. */
module Colors {
  import opened Egui

  const FG_BLUE := Rgb(23, 159, 255)
  const FG_YELLOW := Rgb(255, 215, 0)
  const FG_PINK := Rgb(218, 112, 214)

  const FOREGROUND_COLORS: seq<Color32> := [FG_BLUE, FG_YELLOW, FG_PINK]

  const BG_BLUE := Rgb(38, 77, 109)
  const BG_YELLOW := Rgb(108, 94, 32)
  const BG_PINK := Rgb(97, 63, 97)

  const BACKGROUND_COLORS: seq<Color32> := [BG_BLUE, BG_YELLOW, BG_PINK]

  const FG_RED := Red
  const BG_RED := Rgb(104, 41, 47)

  /** `TextFormat::background`: the given background, with white text. */
  function Background(font: FontId, background: Color32): (f: TextFormat)
    ensures f.fontId == font && f.color == White && f.background == background
  {
    TextFormat(font, White, background)
  }
}
