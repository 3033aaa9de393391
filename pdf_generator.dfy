/**
 * `generatePDF` (src/utils/pdfGenerator.ts): capture every slide element in
 * turn into a canvas, sort the captures by index, put one capture per page
 * at full page size, and save the document under a name derived from the
 * title.
 *
 * The DOM, `html2canvas` and `jsPDF` are outside the model: a DOM element is
 * an opaque handle, a rasterisation either yields the canvas of its element
 * or fails (the set `rasterFails` names the slide indices where it fails),
 * and every call into the document library is recorded as an event.
 */
module PdfGenerator {
  import opened Wrappers
  import opened JsString
  import opened JsArray

  /** An opaque DOM element. */
  datatype Element = Element(handle: nat)

  /** The canvas `html2canvas` produces from a slide element. */
  datatype Canvas = Canvas(source: Element)

  /** `{ canvas, index }`. */
  datatype CapturedSlide = CapturedSlide(canvas: Canvas, index: int)

  function CaptureIndex(c: CapturedSlide): int {
    c.index
  }

  /** One `addImage` call: the image and its placement on the page. */
  datatype PlacedImage = PlacedImage(canvas: Canvas, x: int, y: int, width: int, height: int)

  /** A page of the document and the images drawn on it. */
  type Page = seq<PlacedImage>

  const SlideWidth := 1920
  const SlideHeight := 1080

  /** The calls the generator makes into the DOM and the document library, in order. */
  datatype PdfEvent =
    | NewDocument(width: int, height: int)
    | CreatePrintContainer
    | Capture(index: nat)
    | CaptureFailed(index: nat)
    | AddPage
    | AddImage(page: nat, x: int, y: int, width: int, height: int)
    | RemovePrintContainer
    | Save(filename: string)

  // ---------------------------------------------------------------------------
  // The filename
  // ---------------------------------------------------------------------------

  /** `s` with its leading run of `\s` characters removed. */
  function DropLeadingWhitespace(s: string): (r: string)
    ensures |r| <= |s|
    ensures |r| > 0 ==> !IsWhitespace(r[0])
    decreases |s|
  {
    if |s| > 0 && IsWhitespace(s[0]) then DropLeadingWhitespace(s[1..]) else s
  }

  /** `s.replace(/\s+/g, '-')`: every maximal run of whitespace becomes one '-'. */
  function ReplaceWhitespaceRuns(s: string): (r: string)
    ensures |r| <= |s|
    decreases |s|
  {
    if |s| == 0 then ""
    else if IsWhitespace(s[0]) then "-" + ReplaceWhitespaceRuns(DropLeadingWhitespace(s[1..]))
    else [s[0]] + ReplaceWhitespaceRuns(s[1..])
  }

  /** `${title.toLowerCase().replace(/\s+/g, '-')}.pdf`. */
  function Filename(title: string): string {
    ReplaceWhitespaceRuns(ToLowerCase(title)) + ".pdf"
  }

  predicate NoWhitespace(s: string) {
    forall i :: 0 <= i < |s| ==> !IsWhitespace(s[i])
  }

  /** Every character of `s` is whitespace. */
  predicate AllWhitespace(s: string)
    decreases |s|
  {
    |s| == 0 || (IsWhitespace(s[0]) && AllWhitespace(s[1..]))
  }

  /** No whitespace survives the replacement. */
  lemma {:induction false} ReplacedHasNoWhitespace(s: string)
    ensures NoWhitespace(ReplaceWhitespaceRuns(s))
    decreases |s|
  {
    if |s| > 0 {
      var r := ReplaceWhitespaceRuns(s);
      if IsWhitespace(s[0]) {
        var t := DropLeadingWhitespace(s[1..]);
        ReplacedHasNoWhitespace(t);
        assert r == "-" + ReplaceWhitespaceRuns(t);
        forall i | 0 <= i < |r| ensures !IsWhitespace(r[i]) {
          if i > 0 { assert r[i] == ReplaceWhitespaceRuns(t)[i - 1]; }
        }
      } else {
        ReplacedHasNoWhitespace(s[1..]);
        assert r == [s[0]] + ReplaceWhitespaceRuns(s[1..]);
        forall i | 0 <= i < |r| ensures !IsWhitespace(r[i]) {
          if i > 0 { assert r[i] == ReplaceWhitespaceRuns(s[1..])[i - 1]; }
        }
      }
    }
  }

  /** The filename has no whitespace and ends in ".pdf". */
  lemma FilenameShape(title: string)
    ensures NoWhitespace(Filename(title))
    ensures |Filename(title)| >= 4 && Filename(title)[|Filename(title)| - 4..] == ".pdf"
  {
    var r := ReplaceWhitespaceRuns(ToLowerCase(title));
    ReplacedHasNoWhitespace(ToLowerCase(title));
    assert Filename(title) == r + ".pdf";
    forall i | 0 <= i < |Filename(title)| ensures !IsWhitespace(Filename(title)[i]) {
      if i < |r| { assert Filename(title)[i] == r[i]; }
    }
  }

  /** A text without whitespace is left as it is. */
  lemma {:induction false} ReplaceWhitespaceRunsNoWhitespace(s: string)
    requires NoWhitespace(s)
    ensures ReplaceWhitespaceRuns(s) == s
    decreases |s|
  {
    if |s| > 0 {
      ReplaceWhitespaceRunsNoWhitespace(s[1..]);
      assert s == [s[0]] + s[1..];
    }
  }

  /** The replacement is idempotent. */
  lemma Idempotent(s: string)
    ensures ReplaceWhitespaceRuns(ReplaceWhitespaceRuns(s)) == ReplaceWhitespaceRuns(s)
  {
    ReplacedHasNoWhitespace(s);
    ReplaceWhitespaceRunsNoWhitespace(ReplaceWhitespaceRuns(s));
  }

  /**
   * A word, then a non-empty whitespace run, then text that does not start
   * with whitespace: the run becomes exactly one '-'.
   */
  lemma {:induction false} ReplaceRunBetween(word: string, run: string, rest: string)
    requires NoWhitespace(word)
    requires |run| > 0 && AllWhitespace(run)
    requires |rest| == 0 || !IsWhitespace(rest[0])
    ensures ReplaceWhitespaceRuns(word + (run + rest)) == word + ("-" + ReplaceWhitespaceRuns(rest))
    decreases |word|
  {
    if |word| == 0 {
      assert word + (run + rest) == run + rest;
      ReplaceRunAtStart(run, rest);
    } else {
      NoWhitespaceTail(word);
      ReplaceRunBetween(word[1..], run, rest);
      ConsConcat(word, run + rest);
      ConsConcat(word, "-" + ReplaceWhitespaceRuns(rest));
      ReplaceCons(word[0], word[1..] + (run + rest));
    }
  }

  lemma NoWhitespaceTail(word: string)
    requires |word| > 0 && NoWhitespace(word)
    ensures NoWhitespace(word[1..]) && !IsWhitespace(word[0])
  {
    var w := word[1..];
    forall i | 0 <= i < |w| ensures !IsWhitespace(w[i]) {
      assert w[i] == word[i + 1];
    }
  }

  /** A leading non-empty whitespace run, before text that does not start with whitespace, becomes one '-'. */
  lemma ReplaceRunAtStart(run: string, rest: string)
    requires |run| > 0 && AllWhitespace(run)
    requires |rest| == 0 || !IsWhitespace(rest[0])
    ensures ReplaceWhitespaceRuns(run + rest) == "-" + ReplaceWhitespaceRuns(rest)
  {
    calc {
      ReplaceWhitespaceRuns(run + rest);
      { assert run + rest == [run[0]] + (run[1..] + rest); }
      ReplaceWhitespaceRuns([run[0]] + (run[1..] + rest));
      { ReplaceCons(run[0], run[1..] + rest); }
      "-" + ReplaceWhitespaceRuns(DropLeadingWhitespace(run[1..] + rest));
      { DropRun(run[1..], rest); }
      "-" + ReplaceWhitespaceRuns(rest);
    }
  }

  lemma ConsConcat(word: string, t: string)
    requires |word| > 0
    ensures word + t == [word[0]] + (word[1..] + t)
  {
    assert word == [word[0]] + word[1..];
  }

  /** One unfolding of the replacement at a first character `c`. */
  lemma ReplaceCons(c: char, t: string)
    ensures ReplaceWhitespaceRuns([c] + t) ==
      if IsWhitespace(c) then "-" + ReplaceWhitespaceRuns(DropLeadingWhitespace(t)) else [c] + ReplaceWhitespaceRuns(t)
  {
    assert ([c] + t)[0] == c && ([c] + t)[1..] == t;
  }

  lemma {:induction false} DropRun(run: string, rest: string)
    requires AllWhitespace(run)
    requires |rest| == 0 || !IsWhitespace(rest[0])
    ensures DropLeadingWhitespace(run + rest) == rest
    decreases |run|
  {
    if |run| == 0 {
      assert run + rest == rest;
    } else {
      DropRun(run[1..], rest);
      assert (run + rest)[1..] == run[1..] + rest;
    }
  }

  lemma LowerFixture()
    ensures ToLowerCase("Folk Devils Presentation") == "folk" + ([' '] + ("devils" + ([' '] + "presentation")))
  {
    FixtureTitle();
    LowerAppend("Folk", [' '] + ("Devils" + ([' '] + "Presentation")));
    LowerAppend([' '], "Devils" + ([' '] + "Presentation"));
    LowerAppend("Devils", [' '] + "Presentation");
    LowerAppend([' '], "Presentation");
    LowerWord("Folk", "folk");
    LowerWord("Devils", "devils");
    LowerWord("Presentation", "presentation");
    LowerWord([' '], [' ']);
  }

  lemma LowerAppend(a: string, b: string)
    ensures ToLowerCase(a + b) == ToLowerCase(a) + ToLowerCase(b)
  {
  }

  /** A capitalised word lower-cases to `lower`: only its first letter changes. */
  lemma LowerWord(w: string, lower: string)
    requires |w| == |lower| > 0
    requires lower[0] == LowerChar(w[0])
    requires forall i :: 1 <= i < |w| ==> !IsAsciiUpper(w[i]) && lower[i] == w[i]
    ensures ToLowerCase(w) == lower
  {
  }

  /** Lower-case ASCII letters are not whitespace. */
  lemma LettersNoWhitespace(w: string)
    requires forall i :: 0 <= i < |w| ==> 'a' <= w[i] <= 'z'
    ensures NoWhitespace(w)
  {
  }

  /** Two words around one space: the space becomes a '-'. */
  lemma ReplaceSingleSpace(a: string, b: string)
    requires NoWhitespace(a) && NoWhitespace(b) && |b| > 0
    ensures ReplaceWhitespaceRuns(a + ([' '] + b)) == a + ("-" + b)
  {
    ReplaceWhitespaceRunsNoWhitespace(b);
    ReplaceRunBetween(a, [' '], b);
  }

  lemma FixtureTitle()
    ensures "Folk Devils Presentation" == "Folk" + ([' '] + ("Devils" + ([' '] + "Presentation")))
  {
  }

  lemma FixtureName()
    ensures "folk" + ("-" + ("devils" + ("-" + "presentation"))) + ".pdf" == "folk-devils-presentation.pdf"
  {
  }

  /** The deck's own title gives "folk-devils-presentation.pdf". */
  lemma FixtureFilename(title: string)
    requires title == "Folk Devils Presentation"
    ensures Filename(title) == "folk-devils-presentation.pdf"
  {
    LowerFixture();
    var f, d, p := "folk", "devils", "presentation";
    LettersNoWhitespace(f);
    LettersNoWhitespace(d);
    LettersNoWhitespace(p);
    ReplaceSingleSpace(d, p);
    ReplaceRunBetween(f, [' '], d + ([' '] + p));
    FixtureName();
  }

  // ---------------------------------------------------------------------------
  // The generator
  // ---------------------------------------------------------------------------

  /** The first slide index below `n` where rasterisation fails, if any. */
  function FirstFailure(n: nat, rasterFails: set<nat>): (r: Option<nat>)
    ensures r.None? <==> forall i :: 0 <= i < n ==> i !in rasterFails
    ensures r.Some? ==>
      (r.value < n && r.value in rasterFails && forall i :: 0 <= i < r.value ==> i !in rasterFails)
    decreases n
  {
    if n == 0 then None
    else match FirstFailure(n - 1, rasterFails)
      case Some(k) => Some(k)
      case None => if n - 1 in rasterFails then Some(n - 1) else None
  }

  /** One capture event per slide `0..k-1`. */
  function CaptureEvents(k: nat): seq<PdfEvent> {
    seq(k, i requires 0 <= i < k => Capture(i))
  }

  /** The records of capturing every slide: the i-th holds the canvas of slide i and index i. */
  function Captures(slides: seq<Element>): seq<CapturedSlide> {
    seq(|slides|, i requires 0 <= i < |slides| => CapturedSlide(Canvas(slides[i]), i))
  }

  /** The events of placing page `i`: a new page unless it is the first, then its image. */
  function PageEvents(i: nat): seq<PdfEvent> {
    (if i > 0 then [AddPage] else []) + [AddImage(i, 0, 0, SlideWidth, SlideHeight)]
  }

  /** The events of placing pages `0..k-1`. */
  function PagesEvents(k: nat): seq<PdfEvent>
    decreases k
  {
    if k == 0 then [] else PagesEvents(k - 1) + PageEvents(k - 1)
  }

  function Prologue(): seq<PdfEvent> {
    [NewDocument(SlideWidth, SlideHeight), CreatePrintContainer]
  }

  /** The events of a run in which every capture succeeds. */
  function SuccessTrace(title: string, n: nat): seq<PdfEvent> {
    Prologue() + CaptureEvents(n) + PagesEvents(n) + [RemovePrintContainer, Save(Filename(title))]
  }

  /** The events of a run whose capture of slide `k` fails: nothing after it. */
  function FailureTrace(k: nat): seq<PdfEvent> {
    Prologue() + CaptureEvents(k) + [CaptureFailed(k)]
  }

  /** The full-page image of a canvas. */
  function FullPage(c: Canvas): PlacedImage {
    PlacedImage(c, 0, 0, SlideWidth, SlideHeight)
  }

  /**
   * The document jsPDF holds once the captures are drawn: it starts with one
   * empty page, so no captures leave one blank page; otherwise page i holds
   * exactly the image of capture i.
   */
  predicate PagesOf(pages: seq<Page>, captured: seq<CapturedSlide>) {
    && |pages| == (if |captured| == 0 then 1 else |captured|)
    && (|captured| == 0 ==> pages == [[]])
    && forall i :: 0 <= i < |captured| ==> pages[i] == [FullPage(captured[i].canvas)]
  }

  /**
   * The capture loop: slide i is captured at index i, in order, and the first
   * failing capture aborts the loop (the error propagates out of `generatePDF`).
   */
  method CaptureSlides(slides: seq<Element>, rasterFails: set<nat>)
    returns (ok: bool, captured: seq<CapturedSlide>, events: seq<PdfEvent>)
    ensures ok <==> FirstFailure(|slides|, rasterFails).None?
    ensures ok ==> captured == Captures(slides) && events == CaptureEvents(|slides|)
    ensures !ok ==>
      (events == CaptureEvents(FirstFailure(|slides|, rasterFails).value)
        + [CaptureFailed(FirstFailure(|slides|, rasterFails).value)])
  {
    captured := [];
    events := [];
    var i := 0;
    while i < |slides|
      invariant 0 <= i <= |slides|
      invariant forall j :: 0 <= j < i ==> j !in rasterFails
      invariant |captured| == i
      invariant forall j :: 0 <= j < i ==> captured[j] == CapturedSlide(Canvas(slides[j]), j)
      invariant events == CaptureEvents(i)
    {
      if i in rasterFails {
        var r := FirstFailure(|slides|, rasterFails);
        assert r.Some?;
        assert !(r.value < i) && !(i < r.value);
        events := events + [CaptureFailed(i)];
        return false, captured, events;
      }
      captured := captured + [CapturedSlide(Canvas(slides[i]), i)];
      events := events + [Capture(i)];
      i := i + 1;
    }
    ok := true;
  }

  /**
   * The page loop: before every capture but the first `addPage` appends a
   * page, and `addImage` draws the capture over the whole of the last page.
   */
  method AddPages(captured: seq<CapturedSlide>) returns (pages: seq<Page>, events: seq<PdfEvent>)
    ensures PagesOf(pages, captured)
    ensures events == PagesEvents(|captured|)
  {
    pages := [[]];
    events := [];
    var k := 0;
    while k < |captured|
      invariant 0 <= k <= |captured|
      invariant |pages| == (if k == 0 then 1 else k)
      invariant k == 0 ==> pages == [[]]
      invariant forall j :: 0 <= j < k ==> pages[j] == [FullPage(captured[j].canvas)]
      invariant events == PagesEvents(k)
    {
      if k > 0 {
        pages := pages + [[]];
        events := events + [AddPage];
      }
      var last := |pages| - 1;
      pages := pages[last := pages[last] + [FullPage(captured[k].canvas)]];
      events := events + [AddImage(k, 0, 0, SlideWidth, SlideHeight)];
      k := k + 1;
    }
  }

  /**
   * `generatePDF({ title, slides })`. `ok` is false when a capture failed:
   * the error is rethrown, and nothing after the failing capture happens (in
   * particular the print container is not removed and nothing is saved).
   * On success page i holds the image of slide i.
   */
  method GeneratePdf(title: string, slides: seq<Element>, rasterFails: set<nat>)
    returns (ok: bool, pages: seq<Page>, trace: seq<PdfEvent>)
    ensures ok <==> FirstFailure(|slides|, rasterFails).None?
    ensures ok ==> trace == SuccessTrace(title, |slides|)
    ensures ok ==> |pages| == (if |slides| == 0 then 1 else |slides|)
    ensures ok ==> forall i :: 0 <= i < |slides| ==> pages[i] == [FullPage(Canvas(slides[i]))]
    ensures !ok ==> trace == FailureTrace(FirstFailure(|slides|, rasterFails).value)
  {
    pages := [[]];
    trace := Prologue();
    var captured, events;
    ok, captured, events := CaptureSlides(slides, rasterFails);
    trace := trace + events;
    if !ok {
      return;
    }
    // capturedSlides.sort((a, b) => a.index - b.index): already in index order.
    assert SortedBy(captured, CaptureIndex);
    SortByAlreadySorted(captured, CaptureIndex);
    captured := SortBy(captured, CaptureIndex);
    pages, events := AddPages(captured);
    trace := trace + events + [RemovePrintContainer, Save(Filename(title))];
  }

  // ---------------------------------------------------------------------------
  // Properties of the traces
  // ---------------------------------------------------------------------------

  /** How often `e` occurs in a trace. */
  function Count(trace: seq<PdfEvent>, e: PdfEvent): nat
    decreases |trace|
  {
    if |trace| == 0 then 0 else (if trace[0] == e then 1 else 0) + Count(trace[1..], e)
  }

  lemma {:induction false} CountAppend(a: seq<PdfEvent>, b: seq<PdfEvent>, e: PdfEvent)
    ensures Count(a + b, e) == Count(a, e) + Count(b, e)
    decreases |a|
  {
    if |a| == 0 {
      assert a + b == b;
    } else {
      assert (a + b)[0] == a[0];
      assert (a + b)[1..] == a[1..] + b;
      CountAppend(a[1..], b, e);
    }
  }

  lemma {:induction false} CaptureEventsNoPage(k: nat)
    ensures Count(CaptureEvents(k), AddPage) == 0
    ensures forall f :: Count(CaptureEvents(k), Save(f)) == 0
    decreases k
  {
    if k > 0 {
      assert CaptureEvents(k) == CaptureEvents(k - 1) + [Capture(k - 1)];
      CaptureEventsNoPage(k - 1);
      CountAppend(CaptureEvents(k - 1), [Capture(k - 1)], AddPage);
      forall f ensures Count(CaptureEvents(k), Save(f)) == 0 {
        CountAppend(CaptureEvents(k - 1), [Capture(k - 1)], Save(f));
      }
    }
  }

  lemma PageEventsCount(i: nat, e: PdfEvent)
    ensures e == AddPage ==> Count(PageEvents(i), e) == (if i > 0 then 1 else 0)
    ensures e.Save? || e == RemovePrintContainer ==> Count(PageEvents(i), e) == 0
  {
    var img := [AddImage(i, 0, 0, SlideWidth, SlideHeight)];
    assert Count(img, e) == (if img[0] == e then 1 else 0) + Count([], e) by {
      assert img[1..] == [];
    }
    if i > 0 {
      assert PageEvents(i) == [AddPage] + img;
      CountAppend([AddPage], img, e);
      assert [AddPage][1..] == [];
    } else {
      assert PageEvents(i) == [] + img;
    }
  }

  lemma {:induction false} PagesEventsCounts(k: nat)
    ensures Count(PagesEvents(k), AddPage) == (if k == 0 then 0 else k - 1)
    ensures forall f :: Count(PagesEvents(k), Save(f)) == 0
    ensures Count(PagesEvents(k), RemovePrintContainer) == 0
    decreases k
  {
    if k > 0 {
      PagesEventsCounts(k - 1);
      CountAppend(PagesEvents(k - 1), PageEvents(k - 1), AddPage);
      PageEventsCount(k - 1, AddPage);
      CountAppend(PagesEvents(k - 1), PageEvents(k - 1), RemovePrintContainer);
      PageEventsCount(k - 1, RemovePrintContainer);
      forall f ensures Count(PagesEvents(k), Save(f)) == 0 {
        CountAppend(PagesEvents(k - 1), PageEvents(k - 1), Save(f));
        PageEventsCount(k - 1, Save(f));
      }
    }
  }

  /**
   * For `n` slides a successful run calls `addPage` exactly n - 1 times (so
   * the document has n pages), saves exactly once, and saving is its last event.
   */
  lemma SuccessTraceCounts(title: string, n: nat)
    requires n > 0
    ensures Count(SuccessTrace(title, n), AddPage) == n - 1
    ensures Count(SuccessTrace(title, n), Save(Filename(title))) == 1
    ensures SuccessTrace(title, n)[|SuccessTrace(title, n)| - 1] == Save(Filename(title))
  {
    var f := Filename(title);
    var body := Prologue() + CaptureEvents(n) + PagesEvents(n);
    var d := [RemovePrintContainer, Save(f)];
    assert SuccessTrace(title, n) == body + d;
    BodyCounts(n, f);
    CountAppend(body, d, AddPage);
    CountAppend(body, d, Save(f));
    assert d[1..] == [Save(f)] && d[1..][1..] == [];
    assert Count(d[1..][1..], AddPage) == 0 && Count(d[1..][1..], Save(f)) == 0;
    assert Count(d[1..], AddPage) == 0 && Count(d[1..], Save(f)) == 1;
    assert Count(d, AddPage) == 0 && Count(d, Save(f)) == 1;
  }

  /** Before the final two events a successful run holds n-1 `addPage` calls and no save. */
  lemma BodyCounts(n: nat, f: string)
    requires n > 0
    ensures Count(Prologue() + CaptureEvents(n) + PagesEvents(n), AddPage) == n - 1
    ensures Count(Prologue() + CaptureEvents(n) + PagesEvents(n), Save(f)) == 0
  {
    var a, b, c := Prologue(), CaptureEvents(n), PagesEvents(n);
    CaptureEventsNoPage(n);
    PagesEventsCounts(n);
    CountAppend(a + b, c, AddPage);
    CountAppend(a, b, AddPage);
    CountAppend(a + b, c, Save(f));
    CountAppend(a, b, Save(f));
    assert a[1..][1..] == [];
  }

  /** A failed run never saves: `save` is reached only when every capture succeeded. */
  lemma FailureTraceNeverSaves(k: nat, f: string)
    ensures Count(FailureTrace(k), Save(f)) == 0
    ensures Count(FailureTrace(k), RemovePrintContainer) == 0
  {
    var a := Prologue();
    var b := CaptureEvents(k);
    var c := [CaptureFailed(k)];
    CaptureEventsNoPage(k);
    CountAppend(a + b, c, Save(f));
    CountAppend(a, b, Save(f));
    CountAppend(a + b, c, RemovePrintContainer);
    CountAppend(a, b, RemovePrintContainer);
    CaptureEventsNoRemove(k);
    assert a[1..][1..] == [];
    assert c[1..] == [];
  }

  lemma {:induction false} CaptureEventsNoRemove(k: nat)
    ensures Count(CaptureEvents(k), RemovePrintContainer) == 0
    decreases k
  {
    if k > 0 {
      assert CaptureEvents(k) == CaptureEvents(k - 1) + [Capture(k - 1)];
      CaptureEventsNoRemove(k - 1);
      CountAppend(CaptureEvents(k - 1), [Capture(k - 1)], RemovePrintContainer);
    }
  }
}
