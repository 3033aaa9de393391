/**
 * The alignment lookup tables of the text-only slide
 * (src/components/presentation/slides/TextOnlySlide.tsx). A missing text
 * alignment means 'left' and a missing vertical alignment means 'center',
 * as the default parameter values say.
 */
module TextOnlySlide {
  import opened Wrappers
  import opened Slides

  const TextAlignmentClasses: set<string> := {"text-left", "text-center", "text-right"}
  const VerticalAlignmentClasses: set<string> := {"items-start", "items-center", "items-end"}

  /** `getTextAlignmentClass`. */
  function TextAlignmentClass(alignment: Option<TextAlignment>): (cls: string)
    ensures cls in TextAlignmentClasses
  {
    match alignment.GetOr(Left)
    case Left => "text-left"
    case Center => "text-center"
    case Right => "text-right"
  }

  /** `getVerticalAlignmentClass`. */
  function VerticalAlignmentClass(alignment: Option<VerticalAlignment>): (cls: string)
    ensures cls in VerticalAlignmentClasses
  {
    match alignment.GetOr(Middle)
    case Top => "items-start"
    case Middle => "items-center"
    case Bottom => "items-end"
  }

  /** What the text-only slide shows, apart from styling constants. */
  datatype TextOnlyView = TextOnlyView(
    verticalAlignClass: string,
    textAlignClass: string,
    header: string,
    body: Option<string>)

  function Render(content: SlideContent): TextOnlyView {
    TextOnlyView(
      VerticalAlignmentClass(content.verticalAlignment),
      TextAlignmentClass(content.textAlignment),
      content.header,
      content.body)
  }

  /** The defaults: no alignment is 'left' and no vertical alignment is 'center'. */
  lemma AlignmentDefaults()
    ensures TextAlignmentClass(None) == TextAlignmentClass(Some(Left)) == "text-left"
    ensures VerticalAlignmentClass(None) == VerticalAlignmentClass(Some(Middle)) == "items-center"
  {
  }

  /** Each alignment has its own class. */
  lemma AlignmentTables()
    ensures TextAlignmentClass(Some(Center)) == "text-center"
    ensures TextAlignmentClass(Some(Right)) == "text-right"
    ensures VerticalAlignmentClass(Some(Top)) == "items-start"
    ensures VerticalAlignmentClass(Some(Bottom)) == "items-end"
  {
  }

  /** Both tables are injective on the alignments: distinct alignments give distinct classes. */
  lemma AlignmentClassesInjective(a: TextAlignment, b: TextAlignment, u: VerticalAlignment, w: VerticalAlignment)
    ensures TextAlignmentClass(Some(a)) == TextAlignmentClass(Some(b)) <==> a == b
    ensures VerticalAlignmentClass(Some(u)) == VerticalAlignmentClass(Some(w)) <==> u == w
  {
  }
}
