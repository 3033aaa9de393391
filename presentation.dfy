/**
 * The presentation screen (src/components/presentation/Presentation.tsx):
 * the keyboard dispatcher, the slide-type to layout mapping, and the
 * keyboard-triggered export, which hands the slide elements the DOM holds to
 * the PDF generator.
 */
module Presentation {
  import opened Wrappers
  import opened Slides
  import PresentationContext
  import TextOnlySlide
  import TwoColumnTextSlide
  import PdfGenerator

  // ---------------------------------------------------------------------------
  // Keyboard
  // ---------------------------------------------------------------------------

  /** The fields of a `KeyboardEvent` the handler reads. */
  datatype KeyEvent = KeyEvent(key: string, metaKey: bool, shiftKey: bool)

  datatype KeyAction = ExportAction | NextAction | PreviousAction | NoAction

  /** What the handler does: the action, and whether it calls `preventDefault`. */
  datatype KeyResponse = KeyResponse(action: KeyAction, preventDefault: bool)

  /** Command + Shift + 'P'. */
  predicate IsExportChord(e: KeyEvent) {
    e.metaKey && e.shiftKey && e.key == "P"
  }

  /**
   * `handleKeyPress`. The export chord is tested first and returns before
   * the navigation switch; 'ArrowRight' and 'Space' move on, 'ArrowLeft'
   * moves back, and every other key is ignored.
   */
  function HandleKeyPress(e: KeyEvent): (r: KeyResponse)
    ensures r.action == ExportAction <==> IsExportChord(e)
    ensures r.preventDefault <==> IsExportChord(e)
    ensures r.action == NextAction <==> !IsExportChord(e) && (e.key == "ArrowRight" || e.key == "Space")
    ensures r.action == PreviousAction <==> !IsExportChord(e) && e.key == "ArrowLeft"
    ensures r.action == NoAction <==>
      !IsExportChord(e) && e.key != "ArrowRight" && e.key != "Space" && e.key != "ArrowLeft"
  {
    if IsExportChord(e) then KeyResponse(ExportAction, true)
    else if e.key == "ArrowRight" || e.key == "Space" then KeyResponse(NextAction, false)
    else if e.key == "ArrowLeft" then KeyResponse(PreviousAction, false)
    else KeyResponse(NoAction, false)
  }

  /** The slide index after a key press, through the provider's updaters. */
  function IndexAfterKey(i: int, e: KeyEvent, n: nat): int {
    match HandleKeyPress(e).action
    case NextAction => PresentationContext.NextIndex(i, n)
    case PreviousAction => PresentationContext.PreviousIndex(i)
    case _ => i
  }

  /**
   * The export chord never navigates, not even with a navigation key held;
   * keys outside the three navigation keys leave the index as it is.
   */
  lemma KeyNavigation(i: int, e: KeyEvent, n: nat)
    ensures IsExportChord(e) ==> IndexAfterKey(i, e, n) == i
    ensures !IsExportChord(e) && (e.key == "ArrowRight" || e.key == "Space") ==>
      IndexAfterKey(i, e, n) == PresentationContext.NextIndex(i, n)
    ensures !IsExportChord(e) && e.key == "ArrowLeft" ==> IndexAfterKey(i, e, n) == PresentationContext.PreviousIndex(i)
    ensures e.key != "ArrowRight" && e.key != "Space" && e.key != "ArrowLeft" ==> IndexAfterKey(i, e, n) == i
  {
  }

  /** Any key sequence keeps the provider's index invariant. */
  lemma {:induction false} KeysKeepIndexOk(i: int, es: seq<KeyEvent>, n: nat)
    requires PresentationContext.IndexOk(i, n)
    ensures PresentationContext.IndexOk(KeysIndex(i, es, n), n)
    decreases |es|
  {
    if |es| > 0 {
      PresentationContext.UpdatersKeepIndexOk(i, 0, n);
      KeysKeepIndexOk(IndexAfterKey(i, es[0], n), es[1..], n);
    }
  }

  /** The index after a sequence of key presses. */
  function KeysIndex(i: int, es: seq<KeyEvent>, n: nat): int
    decreases |es|
  {
    if |es| == 0 then i else KeysIndex(IndexAfterKey(i, es[0], n), es[1..], n)
  }

  // ---------------------------------------------------------------------------
  // Slide rendering
  // ---------------------------------------------------------------------------

  /** The layout component chosen for a slide, with the props it receives. */
  datatype SlideView =
    | CoverView(content: SlideContent)
    | TextOnlyView(textOnly: TextOnlySlide.TextOnlyView)
    | TextImageView(content: SlideContent, image: Option<ImageContent>, imageOnLeft: bool)
    | TwoColumnView(twoColumn: TwoColumnTextSlide.TwoColumnView)
    | ModelView(texturePath: Option<string>)
    | NoView
    | UnsupportedView(message: string)

  /** `<div className="slide-content" data-slide-index={currentSlideIndex}>`. */
  datatype SlideFrame = SlideFrame(slideIndex: int, view: SlideView)

  const UnsupportedMessage := "Unsupported slide type"

  /** `renderSlide`: the switch on `slide.type`. */
  function RenderSlide(slide: Slide, currentSlideIndex: int): (f: SlideFrame)
    ensures f.slideIndex == currentSlideIndex
    ensures f.view.CoverView? <==> slide.slideType == "cover" || slide.slideType == "cover-2"
    ensures f.view.TextOnlyView? <==> slide.slideType == "text-only"
    ensures f.view.TextImageView? <==> slide.slideType == "text-image-right" || slide.slideType == "text-image-left"
    ensures f.view.TextImageView? ==>
      f.view.image == slide.image && (f.view.imageOnLeft <==> slide.slideType == "text-image-left")
    ensures f.view.TwoColumnView? <==> slide.slideType == "two-column-text"
    ensures f.view.ModelView? <==> slide.slideType == "model"
    ensures f.view.ModelView? ==> f.view.texturePath == slide.content.texturePath
    ensures f.view.NoView? <==> slide.slideType == "custom"
    ensures f.view.UnsupportedView? <==> slide.slideType !in SlideTypeTags
    ensures f.view.UnsupportedView? ==> f.view.message == UnsupportedMessage
  {
    var view :=
      match slide.slideType
      case "cover" => CoverView(slide.content)
      case "cover-2" => CoverView(slide.content)
      case "text-only" => TextOnlyView(TextOnlySlide.Render(slide.content))
      case "text-image-right" => TextImageView(slide.content, slide.image, false)
      case "text-image-left" => TextImageView(slide.content, slide.image, true)
      case "two-column-text" => TwoColumnView(TwoColumnTextSlide.Render(slide.content))
      case "model" => ModelView(slide.content.texturePath)
      case "custom" => NoView
      case _ => UnsupportedView(UnsupportedMessage);
    SlideFrame(currentSlideIndex, view)
  }

  /** What the screen shows. */
  datatype Screen = Message(text: string) | Deck(frame: SlideFrame)

  const NoSlidesMessage := "No slides available"

  /** The component's return: a message without a current slide, else the slide in its layout. */
  function Present(currentSlide: Option<Slide>, currentSlideIndex: int): (s: Screen)
    ensures currentSlide.None? <==> s == Message(NoSlidesMessage)
    ensures currentSlide.Some? ==> s == Deck(RenderSlide(currentSlide.value, currentSlideIndex))
  {
    match currentSlide
    case None => Message(NoSlidesMessage)
    case Some(slide) => Deck(RenderSlide(slide, currentSlideIndex))
  }

  /**
   * Over an empty deck no key moves the index off 0 (and the current slide
   * stays null, so the screen keeps showing "No slides available").
   */
  lemma {:induction false} EmptyDeckIgnoresKeys(es: seq<KeyEvent>)
    ensures KeysIndex(0, es, 0) == 0
    decreases |es|
  {
    if |es| > 0 {
      EmptyDeckIgnoresKeys(es[1..]);
    }
  }

  // ---------------------------------------------------------------------------
  // Keyboard export
  // ---------------------------------------------------------------------------

  /**
   * `handleGeneratePDF`: with no `.slide-content` element in the DOM it
   * returns without calling `generatePDF`; otherwise it calls it on the
   * elements in document order. A rejection is caught and logged, so
   * nothing is reported back.
   */
  method HandleGeneratePdf(title: string, found: seq<PdfGenerator.Element>, rasterFails: set<nat>)
    returns (called: bool, pdfTrace: seq<PdfGenerator.PdfEvent>)
    ensures called <==> |found| > 0
    ensures !called ==> pdfTrace == []
    ensures called && PdfGenerator.FirstFailure(|found|, rasterFails).None? ==>
      pdfTrace == PdfGenerator.SuccessTrace(title, |found|)
    ensures called && PdfGenerator.FirstFailure(|found|, rasterFails).Some? ==>
      pdfTrace == PdfGenerator.FailureTrace(PdfGenerator.FirstFailure(|found|, rasterFails).value)
  {
    if |found| == 0 {
      return false, [];
    }
    var ok, pages;
    ok, pages, pdfTrace := PdfGenerator.GeneratePdf(title, found, rasterFails);
    called := true;
  }
}
