/**
 * The deck's data types (src/types/slides.ts). Optional fields are `Option`s.
 * A slide's `type` is kept as its string tag: the union type constrains only
 * the compiler, and the renderer has a branch for tags outside it.
 */
module Slides {
  import opened Wrappers

  datatype TextAlignment = Left | Center | Right

  /** 'top' | 'center' | 'bottom'; `Middle` is the tag 'center'. */
  datatype VerticalAlignment = Top | Middle | Bottom

  datatype ColorConfig = ColorConfig(word: string, color: string)

  datatype SlideContent = SlideContent(
    header: string,
    eyebrow: Option<string>,
    body: Option<string>,
    supportingText: Option<string>,
    textAlignment: Option<TextAlignment>,
    verticalAlignment: Option<VerticalAlignment>,
    colorConfig: Option<seq<ColorConfig>>,
    texturePath: Option<string>,
    customFont: Option<string>,
    customTextColor: Option<string>)

  datatype ImageContent = ImageContent(src: string, alt: string)

  datatype Slide = Slide(
    id: string,
    slideType: string,
    content: SlideContent,
    image: Option<ImageContent>,
    customComponent: Option<string>)

  datatype PresentationConfig = PresentationConfig(title: string, slides: seq<Slide>)

  /** The eight tags of the `SlideType` union. */
  const SlideTypeTags: set<string> :=
    {"cover", "cover-2", "text-only", "text-image-right", "text-image-left",
     "two-column-text", "model", "custom"}

  /** A content record with only a header, as most fixture slides have. */
  function HeaderOnly(header: string): SlideContent {
    SlideContent(header, None, None, None, None, None, None, None, None, None)
  }
}
