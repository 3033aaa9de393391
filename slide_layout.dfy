/**
 * The slide frame (src/components/presentation/SlideLayout.tsx): the
 * zero-padded page label, the export button, and `handlePrint`, which walks
 * the provider through every slide, collects the slide elements the DOM
 * shows, hands them to the PDF generator and restores the slide the user
 * was on.
 *
 * The DOM query made after each navigation is the parameter `dom`: `dom(i)`
 * is the `.slide-content` element shown while slide i is current, or None
 * when the query finds nothing. The 300 ms waits are left out; the two
 * `setTimeout` calls that clear the status are recorded as events.
 */
module SlideLayout {
  import opened Wrappers
  import opened JsString
  import opened JsArray
  import opened PresentationContext
  import PdfGenerator

  type Element = PdfGenerator.Element

  // ---------------------------------------------------------------------------
  // Page label and export button
  // ---------------------------------------------------------------------------

  /** `num.toString().padStart(2, '0')`. */
  function FormatPageNumber(num: nat): string {
    PadStart(NatToString(num), 2, '0')
  }

  /**
   * A one-digit page number is "0" then its digit; a larger one is its
   * plain decimal form; the label is max(2, digits) long, all digits, and
   * reads back as the number.
   */
  lemma FormatPageNumberShape(k: nat)
    ensures k <= 9 ==> FormatPageNumber(k) == ['0', DigitChar(k)]
    ensures k >= 10 ==> FormatPageNumber(k) == NatToString(k)
    ensures |FormatPageNumber(k)| == Max(2, NumDigits(k))
    ensures forall i :: 0 <= i < |FormatPageNumber(k)| ==> IsDigit(FormatPageNumber(k)[i])
    ensures DecimalValue(FormatPageNumber(k)) == k
  {
    NatToStringDigits(k);
    NatToStringLength(k);
    if k <= 9 {
      assert FormatPageNumber(k) == "0" + NatToString(k);
      DecimalValueLeadingZero(NatToString(k));
    }
  }

  /** `{formatPageNumber(currentSlideIndex + 1)} / {formatPageNumber(totalSlides)}`. */
  function PageLabel(index: nat, total: nat): string {
    FormatPageNumber(index + 1) + " / " + FormatPageNumber(total)
  }

  /** The label is two digit strings around " / " that read back as index + 1 and total. */
  lemma PageLabelReadsBack(index: nat, total: nat)
    ensures exists a, b ::
      && PageLabel(index, total) == a + " / " + b
      && (forall i :: 0 <= i < |a| ==> IsDigit(a[i]))
      && (forall i :: 0 <= i < |b| ==> IsDigit(b[i]))
      && DecimalValue(a) == index + 1 && DecimalValue(b) == total
  {
    FormatPageNumberShape(index + 1);
    FormatPageNumberShape(total);
    var a, b := FormatPageNumber(index + 1), FormatPageNumber(total);
    assert PageLabel(index, total) == a + " / " + b;
  }

  /** The export button: `disabled={!!exportStatus}`, label `exportStatus || 'Export PDF'`. */
  datatype ExportButton = ExportButton(disabled: bool, caption: string)

  function Button(exportStatus: string): (b: ExportButton)
    ensures b.disabled <==> exportStatus != ""
    ensures b.caption == (if exportStatus != "" then exportStatus else "Export PDF")
    ensures b.caption != ""
  {
    if exportStatus != "" then ExportButton(true, exportStatus) else ExportButton(false, "Export PDF")
  }

  // ---------------------------------------------------------------------------
  // The export
  // ---------------------------------------------------------------------------

  /** `{ element, index }`: a slide element found in the DOM and the slide it shows. */
  datatype CapturedElement = CapturedElement(element: Element, index: int)

  function ElementIndex(c: CapturedElement): int {
    c.index
  }

  /** What `handlePrint` does that can be observed, in order. */
  datatype LayoutEvent =
    | SetStatus(text: string)
    | Navigate(index: int)
    | AppendContainer
    | RemoveContainer
    | ScheduleClear(delayMs: nat)
    | Generate(title: string, slides: seq<Element>, pdf: seq<PdfGenerator.PdfEvent>)

  const StartingMessage := "Starting PDF export..."
  const SuccessMessage := "PDF generated successfully!"
  const ErrorMessage := "Error generating PDF"
  const ClearDelay := 3000

  function CapturingMessage(k: nat, total: nat): string {
    "Capturing slide " + NatToString(k) + " of " + NatToString(total) + "..."
  }

  function GeneratingMessage(n: nat): string {
    "Generating PDF with " + NatToString(n) + " slides..."
  }

  /** The slide elements the loop collects from slides 0..n-1: the ones the DOM query finds. */
  function Found(dom: nat -> Option<Element>, n: nat): seq<CapturedElement>
    decreases n
  {
    if n == 0 then []
    else Found(dom, n - 1) + (if dom(n - 1).Some? then [CapturedElement(dom(n - 1).value, n - 1)] else [])
  }

  /** The events of loop iterations 0..n-1: navigate, then report the capture when found. */
  function LoopEvents(dom: nat -> Option<Element>, n: nat, total: nat): seq<LayoutEvent>
    decreases n
  {
    if n == 0 then []
    else
      LoopEvents(dom, n - 1, total) + [Navigate(n - 1)]
      + (if dom(n - 1).Some? then [SetStatus(CapturingMessage(n, total))] else [])
  }

  /** The elements handed to `generatePDF`. */
  function Elements(cs: seq<CapturedElement>): seq<Element> {
    seq(|cs|, i requires 0 <= i < |cs| => cs[i].element)
  }

  /** The inner `finally` and then the outer `catch`. */
  function ErrorEvents(): seq<LayoutEvent> {
    [RemoveContainer, ScheduleClear(ClearDelay), SetStatus(ErrorMessage), ScheduleClear(ClearDelay)]
  }

  /** Whether `generatePDF` succeeds on the collected elements. */
  predicate PdfSucceeds(found: seq<CapturedElement>, rasterFails: set<nat>) {
    PdfGenerator.FirstFailure(|found|, rasterFails).None?
  }

  /** Whether the export as a whole succeeds: something was found and the PDF was made. */
  predicate ExportSucceeds(dom: nat -> Option<Element>, total: nat, rasterFails: set<nat>) {
    var found := Found(dom, total);
    |found| > 0 && PdfSucceeds(found, rasterFails)
  }

  /** The events of `generatePDF` on the collected elements. */
  function PdfTrace(title: string, found: seq<CapturedElement>, rasterFails: set<nat>): seq<PdfGenerator.PdfEvent> {
    if PdfSucceeds(found, rasterFails) then PdfGenerator.SuccessTrace(title, |found|)
    else PdfGenerator.FailureTrace(PdfGenerator.FirstFailure(|found|, rasterFails).value)
  }

  /** The events after the capture loop. */
  function Outcome(title: string, original: int, found: seq<CapturedElement>, rasterFails: set<nat>): seq<LayoutEvent> {
    if |found| == 0 then ErrorEvents()
    else
      [SetStatus(GeneratingMessage(|found|)), Generate(title, Elements(found), PdfTrace(title, found, rasterFails))]
      + if PdfSucceeds(found, rasterFails)
        then [SetStatus(SuccessMessage), Navigate(original), RemoveContainer, ScheduleClear(ClearDelay)]
        else ErrorEvents()
  }

  /** The whole event sequence of one export. */
  function ExportTrace(title: string, original: int, dom: nat -> Option<Element>, total: nat, rasterFails: set<nat>): seq<LayoutEvent> {
    [SetStatus(StartingMessage), AppendContainer] + LoopEvents(dom, total, total)
    + Outcome(title, original, Found(dom, total), rasterFails)
  }

  /** The collected slides are in strictly increasing index order and were all shown by the DOM. */
  lemma {:induction false} FoundOrdered(dom: nat -> Option<Element>, n: nat)
    ensures StrictlyIncreasing(Found(dom, n), ElementIndex)
    ensures forall j :: 0 <= j < |Found(dom, n)| ==>
      0 <= Found(dom, n)[j].index < n && dom(Found(dom, n)[j].index) == Some(Found(dom, n)[j].element)
    decreases n
  {
    if n > 0 {
      FoundOrdered(dom, n - 1);
    }
  }

  /** Every slide the DOM shows is collected: nothing found is skipped. */
  lemma {:induction false} FoundComplete(dom: nat -> Option<Element>, n: nat, i: nat)
    requires i < n && dom(i).Some?
    ensures exists j :: 0 <= j < |Found(dom, n)| && Found(dom, n)[j] == CapturedElement(dom(i).value, i)
    decreases n
  {
    if i < n - 1 {
      FoundComplete(dom, n - 1, i);
      var j :| 0 <= j < |Found(dom, n - 1)| && Found(dom, n - 1)[j] == CapturedElement(dom(i).value, i);
      assert Found(dom, n)[j] == Found(dom, n - 1)[j];
    } else {
      assert Found(dom, n)[|Found(dom, n)| - 1] == CapturedElement(dom(i).value, i);
    }
  }

  /** `capturedSlides.sort((a, b) => a.index - b.index)` leaves the collected list as it is. */
  lemma SortKeepsFound(dom: nat -> Option<Element>, n: nat)
    ensures SortBy(Found(dom, n), ElementIndex) == Found(dom, n)
  {
    FoundOrdered(dom, n);
    SortByAlreadySorted(Found(dom, n), ElementIndex);
  }

  /** When the DOM finds no slide at all the export fails without calling `generatePDF`. */
  lemma NothingFoundNoGenerate(title: string, original: int, dom: nat -> Option<Element>, total: nat, rasterFails: set<nat>)
    requires forall i :: 0 <= i < total ==> dom(i).None?
    ensures |Found(dom, total)| == 0
    ensures !ExportSucceeds(dom, total, rasterFails)
    ensures forall e :: e in ExportTrace(title, original, dom, total, rasterFails) ==> !e.Generate?
  {
    FoundNone(dom, total);
    LoopEventsNoGenerate(dom, total, total);
  }

  lemma {:induction false} FoundNone(dom: nat -> Option<Element>, n: nat)
    requires forall i :: 0 <= i < n ==> dom(i).None?
    ensures Found(dom, n) == []
    decreases n
  {
    if n > 0 {
      FoundNone(dom, n - 1);
    }
  }

  lemma {:induction false} LoopEventsNoGenerate(dom: nat -> Option<Element>, n: nat, total: nat)
    ensures forall e :: e in LoopEvents(dom, n, total) ==> !e.Generate? && (e.SetStatus? ==> e.text != "")
    decreases n
  {
    if n > 0 {
      LoopEventsNoGenerate(dom, n - 1, total);
    }
  }

  /**
   * Every status the export sets is non-empty, so the export button stays
   * disabled from the first status until a scheduled clear runs.
   */
  lemma StatusesDisableButton(title: string, original: int, dom: nat -> Option<Element>, total: nat, rasterFails: set<nat>)
    ensures forall e :: e in ExportTrace(title, original, dom, total, rasterFails) && e.SetStatus? ==>
      e.text != "" && Button(e.text).disabled
  {
    var head: seq<LayoutEvent> := [SetStatus(StartingMessage), AppendContainer];
    var loop := LoopEvents(dom, total, total);
    var outcome := Outcome(title, original, Found(dom, total), rasterFails);
    assert ExportTrace(title, original, dom, total, rasterFails) == head + loop + outcome;
    LoopEventsNoGenerate(dom, total, total);
    OutcomeStatuses(title, original, Found(dom, total), rasterFails);
    forall e | e in head + loop + outcome && e.SetStatus? ensures e.text != "" && Button(e.text).disabled {
      assert e in head || e in loop || e in outcome;
    }
  }

  /** The statuses set after the loop are the fixed messages, none of them empty. */
  lemma OutcomeStatuses(title: string, original: int, found: seq<CapturedElement>, rasterFails: set<nat>)
    ensures forall e :: e in Outcome(title, original, found, rasterFails) && e.SetStatus? ==>
      e.text in {GeneratingMessage(|found|), SuccessMessage, ErrorMessage}
  {
  }

  /** The layout: the provider it reads and its own `exportStatus` state. */
  class SlideLayout {
    const provider: PresentationProvider
    var exportStatus: string

    ghost predicate Valid()
      reads this, provider
    {
      provider.Valid()
    }

    /** `useState<string>('')`. */
    constructor (provider: PresentationProvider)
      requires provider.Valid()
      ensures this.provider == provider
      ensures exportStatus == ""
      ensures Valid()
    {
      this.provider := provider;
      exportStatus := "";
    }

    /** The callback of the scheduled `setTimeout(() => setExportStatus(''), 3000)`. */
    method ClearStatus()
      modifies this
      ensures exportStatus == ""
    {
      exportStatus := "";
    }

    /**
     * The capture loop of `handlePrint`: navigate to every slide in turn and
     * collect the element the DOM shows, skipping slides it does not find.
     */
    method CaptureLoop(dom: nat -> Option<Element>) returns (captured: seq<CapturedElement>, events: seq<LayoutEvent>)
      requires Valid()
      modifies this, provider
      ensures Valid()
      ensures captured == Found(dom, |provider.config.slides|)
      ensures events == LoopEvents(dom, |provider.config.slides|, |provider.config.slides|)
      ensures provider.currentSlideIndex
        == (if |provider.config.slides| > 0 then |provider.config.slides| - 1 else old(provider.currentSlideIndex))
    {
      var total := provider.TotalSlides();
      captured := [];
      events := [];
      var i := 0;
      while i < total
        invariant 0 <= i <= total
        invariant provider.Valid()
        invariant provider.currentSlideIndex == (if i == 0 then old(provider.currentSlideIndex) else i - 1)
        invariant captured == Found(dom, i)
        invariant events == LoopEvents(dom, i, total)
      {
        provider.GoToSlide(i);
        events := events + [Navigate(i)];
        var current := dom(i);
        if current.None? {
          i := i + 1;
          continue;
        }
        exportStatus := CapturingMessage(i + 1, total);
        events := events + [SetStatus(CapturingMessage(i + 1, total))];
        captured := captured + [CapturedElement(current.value, i)];
        i := i + 1;
      }
    }

    /**
     * Sort the collected elements by index and hand them to `generatePDF`;
     * `ok` is false when it throws.
     */
    method Generate(captured: seq<CapturedElement>, rasterFails: set<nat>)
      returns (ok: bool, events: seq<LayoutEvent>)
      requires Valid()
      requires StrictlyIncreasing(captured, ElementIndex)
      modifies this
      ensures ok <==> PdfSucceeds(captured, rasterFails)
      ensures events == [SetStatus(GeneratingMessage(|captured|)),
        LayoutEvent.Generate(provider.config.title, Elements(captured), PdfTrace(provider.config.title, captured, rasterFails))]
    {
      var title := provider.PresentationTitle();
      exportStatus := GeneratingMessage(|captured|);
      SortByAlreadySorted(captured, ElementIndex);
      var sorted := SortBy(captured, ElementIndex);
      var els := Elements(sorted);
      var pages, pdfTrace;
      ok, pages, pdfTrace := PdfGenerator.GeneratePdf(title, els, rasterFails);
      events := [SetStatus(GeneratingMessage(|captured|)), LayoutEvent.Generate(title, els, pdfTrace)];
    }

    /**
     * The part of `handlePrint` after the capture loop: fail when nothing was
     * collected, otherwise generate, and on success go back to the original
     * slide.
     */
    method FinishExport(original: int, captured: seq<CapturedElement>, rasterFails: set<nat>)
      returns (events: seq<LayoutEvent>)
      requires Valid()
      requires IndexOk(original, |provider.config.slides|)
      requires StrictlyIncreasing(captured, ElementIndex)
      requires forall j :: 0 <= j < |captured| ==> 0 <= captured[j].index < |provider.config.slides|
      modifies this, provider
      ensures Valid()
      ensures events == Outcome(provider.config.title, original, captured, rasterFails)
      ensures |captured| > 0 && PdfSucceeds(captured, rasterFails) ==>
        provider.currentSlideIndex == original && exportStatus == SuccessMessage
      ensures !(|captured| > 0 && PdfSucceeds(captured, rasterFails)) ==>
        provider.currentSlideIndex == old(provider.currentSlideIndex) && exportStatus == ErrorMessage
    {
      if |captured| == 0 {
        // throw new Error('No slides were captured'): the finally, then the catch.
        events := ErrorEvents();
        exportStatus := ErrorMessage;
      } else {
        var ok;
        ok, events := Generate(captured, rasterFails);
        if ok {
          exportStatus := SuccessMessage;
          assert captured[0].index < |provider.config.slides|;
          provider.GoToSlide(original);
          events := events + [SetStatus(SuccessMessage), Navigate(original), RemoveContainer, ScheduleClear(ClearDelay)];
        } else {
          events := events + ErrorEvents();
          exportStatus := ErrorMessage;
        }
      }
    }

    /**
     * `handlePrint`. On success the provider is back at the slide it was on
     * at the start; on the error path it stays on the last slide visited.
     */
    method HandlePrint(dom: nat -> Option<Element>, rasterFails: set<nat>) returns (trace: seq<LayoutEvent>)
      requires Valid()
      modifies this, provider
      ensures Valid()
      ensures trace == ExportTrace(provider.config.title, old(provider.currentSlideIndex), dom, |provider.config.slides|, rasterFails)
      ensures ExportSucceeds(dom, |provider.config.slides|, rasterFails) ==>
        provider.currentSlideIndex == old(provider.currentSlideIndex) && exportStatus == SuccessMessage
      ensures !ExportSucceeds(dom, |provider.config.slides|, rasterFails) ==>
        && exportStatus == ErrorMessage
        && provider.currentSlideIndex
          == (if |provider.config.slides| > 0 then |provider.config.slides| - 1 else old(provider.currentSlideIndex))
    {
      exportStatus := StartingMessage;
      var original := provider.currentSlideIndex;
      var captured, events := CaptureLoop(dom);
      FoundOrdered(dom, |provider.config.slides|);
      var outcome := FinishExport(original, captured, rasterFails);
      trace := [SetStatus(StartingMessage), AppendContainer] + events + outcome;
    }
  }
}
