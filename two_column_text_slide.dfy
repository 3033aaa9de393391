/**
 * The text handling of the two-column slide
 * (src/components/presentation/slides/TwoColumnTextSlide.tsx): which text is
 * shown, its split into paragraphs with a rule between neighbours, the
 * header's split into two lines, and the word colouring of `processText`.
 */
module TwoColumnTextSlide {
  import opened Wrappers
  import opened Slides
  import opened JsString

  /** defaultTheme.colors.text.primary, the default colour of `processText`. */
  const DefaultTextColor := "#ffffff"

  /** A JavaScript string value is truthy when it is present and non-empty. */
  predicate Truthy(s: Option<string>) {
    s.Some? && s.value != ""
  }

  /** `content.supportingText || content.body || ''`. */
  function SourceText(content: SlideContent): (text: string)
    ensures Truthy(content.supportingText) ==> text == content.supportingText.value
    ensures !Truthy(content.supportingText) && Truthy(content.body) ==> text == content.body.value
    ensures text != "" <==> Truthy(content.supportingText) || Truthy(content.body)
  {
    if Truthy(content.supportingText) then content.supportingText.value
    else if Truthy(content.body) then content.body.value
    else ""
  }

  const ParagraphBreak := "\n\n"

  /** `text.split('\n\n')`. */
  function Paragraphs(text: string): seq<string> {
    Split(text, ParagraphBreak)
  }

  /**
   * There is always at least one paragraph, no paragraph holds a paragraph
   * break, and joining them with the break gives the text back. The cuts are
   * the leftmost ones: no break starts inside a paragraph and each paragraph
   * but the last is followed by one, so "a\n\n\nb" gives "a" and "\nb".
   */
  lemma ParagraphsRoundTrip(text: string)
    ensures |Paragraphs(text)| >= 1
    ensures Join(Paragraphs(text), ParagraphBreak) == text
    ensures forall i :: 0 <= i < |Paragraphs(text)| ==> !Contains(Paragraphs(text)[i], ParagraphBreak)
    ensures forall i :: 0 <= i < |Paragraphs(text)| ==> NoneInside(text, ParagraphBreak, Paragraphs(text), i)
    ensures forall i :: 0 <= i < |Paragraphs(text)| - 1 ==> CutAfter(text, ParagraphBreak, Paragraphs(text), i)
  {
    JoinSplit(text, ParagraphBreak);
    SplitPieces(text, ParagraphBreak);
    SplitLeftmost(text, ParagraphBreak);
  }

  // ---------------------------------------------------------------------------
  // Body: paragraphs with a separator between neighbours
  // ---------------------------------------------------------------------------

  datatype Block = Paragraph(text: string) | Separator

  /** The fragment rendered for paragraph `i`: the paragraph, then a rule unless it is the last. */
  function Fragment(ps: seq<string>, i: nat): seq<Block>
    requires i < |ps|
  {
    [Paragraph(ps[i])] + (if i < |ps| - 1 then [Separator] else [])
  }

  /** The fragments of paragraphs `i..`, in order (`paragraphs.map`). */
  function FragmentsFrom(ps: seq<string>, i: nat): seq<Block>
    requires i <= |ps|
    decreases |ps| - i
  {
    if i == |ps| then [] else Fragment(ps, i) + FragmentsFrom(ps, i + 1)
  }

  function RenderBody(ps: seq<string>): seq<Block> {
    FragmentsFrom(ps, 0)
  }

  /**
   * From paragraph `i` on, the blocks alternate: paragraph `i + k` sits at
   * position 2k and a separator at position 2k + 1 for all but the last.
   */
  lemma {:induction false} FragmentsFromLayout(ps: seq<string>, i: nat)
    requires i < |ps|
    ensures var r := FragmentsFrom(ps, i);
      && |r| == 2 * (|ps| - i) - 1
      && (forall k :: 0 <= k < |ps| - i ==> r[2 * k] == Paragraph(ps[i + k]))
      && (forall k :: 0 <= k < |ps| - i - 1 ==> r[2 * k + 1] == Separator)
    decreases |ps| - i
  {
    var r := FragmentsFrom(ps, i);
    FragmentsFromStep(ps, i);
    if i < |ps| - 1 {
      FragmentsFromLayout(ps, i + 1);
      var tail := FragmentsFrom(ps, i + 1);
      forall k | 0 <= k < |ps| - i ensures r[2 * k] == Paragraph(ps[i + k]) {
        if k > 0 {
          assert r[2 * k] == tail[2 * (k - 1)];
        }
      }
      forall k | 0 <= k < |ps| - i - 1 ensures r[2 * k + 1] == Separator {
        if k > 0 {
          assert r[2 * k + 1] == tail[2 * (k - 1) + 1];
        }
      }
    }
  }

  /** One fragment: the paragraph, then, unless it is the last, a rule and the rest. */
  lemma FragmentsFromStep(ps: seq<string>, i: nat)
    requires i < |ps|
    ensures i == |ps| - 1 ==> FragmentsFrom(ps, i) == [Paragraph(ps[i])]
    ensures i < |ps| - 1 ==> FragmentsFrom(ps, i) == [Paragraph(ps[i]), Separator] + FragmentsFrom(ps, i + 1)
  {
    if i == |ps| - 1 {
      assert FragmentsFrom(ps, i + 1) == [];
      assert Fragment(ps, i) == [Paragraph(ps[i])];
    } else {
      assert Fragment(ps, i) == [Paragraph(ps[i]), Separator];
    }
  }

  /** The number of separators in a block list. */
  function CountSeparators(bs: seq<Block>): nat
    decreases |bs|
  {
    if |bs| == 0 then 0 else (if bs[0].Separator? then 1 else 0) + CountSeparators(bs[1..])
  }

  lemma {:induction false} CountSeparatorsAppend(a: seq<Block>, b: seq<Block>)
    ensures CountSeparators(a + b) == CountSeparators(a) + CountSeparators(b)
    decreases |a|
  {
    if |a| == 0 {
      assert a + b == b;
    } else {
      assert (a + b)[0] == a[0];
      assert (a + b)[1..] == a[1..] + b;
      CountSeparatorsAppend(a[1..], b);
    }
  }

  lemma {:induction false} FragmentsFromSeparators(ps: seq<string>, i: nat)
    requires i < |ps|
    ensures CountSeparators(FragmentsFrom(ps, i)) == |ps| - i - 1
    decreases |ps| - i
  {
    FragmentsFromStep(ps, i);
    if i < |ps| - 1 {
      var head: seq<Block> := [Paragraph(ps[i]), Separator];
      FragmentsFromSeparators(ps, i + 1);
      CountSeparatorsAppend(head, FragmentsFrom(ps, i + 1));
      assert CountSeparators(head) == 1 by {
        assert head[1..][1..] == [];
      }
    } else {
      assert [Paragraph(ps[i])][1..] == [];
    }
  }

  /**
   * The body of a slide with paragraphs `ps` (at least one, as a split always
   * gives): the paragraphs in order, exactly one separator between each
   * adjacent pair, and no other separator.
   */
  lemma RenderBodyLayout(ps: seq<string>)
    requires |ps| >= 1
    ensures var r := RenderBody(ps);
      && |r| == 2 * |ps| - 1
      && (forall k :: 0 <= k < |ps| ==> r[2 * k] == Paragraph(ps[k]))
      && (forall k :: 0 <= k < |ps| - 1 ==> r[2 * k + 1] == Separator)
      && CountSeparators(r) == |ps| - 1
  {
    var r := FragmentsFrom(ps, 0);
    assert RenderBody(ps) == r;
    FragmentsFromLayout(ps, 0);
    FragmentsFromSeparators(ps, 0);
    forall k | 0 <= k < |ps| ensures r[2 * k] == Paragraph(ps[k]) {
      assert r[2 * k] == Paragraph(ps[0 + k]);
    }
  }

  // ---------------------------------------------------------------------------
  // Header: first line and the rest
  // ---------------------------------------------------------------------------

  /**
   * `const [firstLine, ...restLines] = header.split('\n')` and the second
   * line `restLines.join(' ')`: the first line is the header up to its first
   * line break, and the second is everything after that break with every
   * further line break turned into a space.
   */
  function HeaderLines(header: string): (lines: (string, string))
    ensures '\n' !in lines.0
    ensures '\n' !in header ==> lines == (header, "")
    ensures '\n' in header ==>
      && |lines.0| < |header|
      && header[..|lines.0|] == lines.0
      && header[|lines.0|] == '\n'
      && lines.1 == ReplaceChar(header[|lines.0| + 1..], '\n', ' ')
  {
    var parts := Split(header, "\n");
    HeaderLinesProof(header);
    (parts[0], Join(parts[1..], " "))
  }

  lemma HeaderLinesProof(header: string)
    ensures var parts := Split(header, "\n");
      && '\n' !in parts[0]
      && ('\n' !in header ==> parts[0] == header && Join(parts[1..], " ") == "")
      && ('\n' in header ==>
        && |parts[0]| < |header|
        && header[..|parts[0]|] == parts[0]
        && header[|parts[0]|] == '\n'
        && Join(parts[1..], " ") == ReplaceChar(header[|parts[0]| + 1..], '\n', ' '))
  {
    var parts := Split(header, "\n");
    JoinSplit(header, "\n");
    SplitCharPieces(header, '\n');
    if |parts| == 1 {
      assert parts[1..] == [];
    } else {
      var rest := Join(parts[1..], "\n");
      assert header == parts[0] + "\n" + rest;
      assert header[|parts[0]|] == '\n';
      assert header[|parts[0]| + 1..] == rest;
      assert header[..|parts[0]|] == parts[0];
      ReplaceJoin(parts[1..], '\n', ' ');
    }
  }

  // ---------------------------------------------------------------------------
  // processText: word colouring
  // ---------------------------------------------------------------------------

  /** A rendered `<span>`: its text and its colour. */
  datatype Span = Span(text: string, color: string)

  /** `config.word.toLowerCase() === word.toLowerCase()`. */
  predicate WordMatches(config: ColorConfig, word: string) {
    ToLowerCase(config.word) == ToLowerCase(word)
  }

  /** Entry `k` is the first entry of `cfg` whose word matches `word`. */
  predicate FirstMatchAt(cfg: seq<ColorConfig>, word: string, k: int) {
    && 0 <= k < |cfg|
    && WordMatches(cfg[k], word)
    && forall j :: 0 <= j < k ==> !WordMatches(cfg[j], word)
  }

  /** `colorConfig.find(...)`: the first entry whose word matches, if any. */
  function FindColorConfig(cfg: seq<ColorConfig>, word: string): (r: Option<ColorConfig>)
    ensures r.None? <==> forall j :: 0 <= j < |cfg| ==> !WordMatches(cfg[j], word)
    ensures r.Some? ==> exists k :: FirstMatchAt(cfg, word, k) && r.value == cfg[k]
    decreases |cfg|
  {
    if |cfg| == 0 then None
    else if WordMatches(cfg[0], word) then
      assert FirstMatchAt(cfg, word, 0);
      Some(cfg[0])
    else
      var r := FindColorConfig(cfg[1..], word);
      FirstMatchShift(cfg, word, r);
      r
  }

  lemma FirstMatchShift(cfg: seq<ColorConfig>, word: string, r: Option<ColorConfig>)
    requires |cfg| > 0 && !WordMatches(cfg[0], word)
    requires r.Some? ==> exists k :: FirstMatchAt(cfg[1..], word, k) && r.value == cfg[1..][k]
    ensures r.Some? ==> exists k :: FirstMatchAt(cfg, word, k) && r.value == cfg[k]
  {
    if r.Some? {
      var k :| FirstMatchAt(cfg[1..], word, k) && r.value == cfg[1..][k];
      assert FirstMatchAt(cfg, word, k + 1);
    }
  }

  /** The colour of one word: the matching entry's colour, else the default. */
  function WordColor(cfg: seq<ColorConfig>, word: string, defaultColor: string): string {
    match FindColorConfig(cfg, word)
    case Some(c) => c.color
    case None => defaultColor
  }

  /**
   * `processText(text, defaultColor)`. Without a colour configuration the
   * text is one span in the default colour; with one (even an empty array,
   * which is truthy), every ' '-separated word becomes a span holding the
   * word and a trailing space, in the colour of its first matching entry.
   */
  function ProcessText(text: string, colorConfig: Option<seq<ColorConfig>>, defaultColor: string): (spans: seq<Span>)
    ensures colorConfig.None? ==> spans == [Span(text, defaultColor)]
    ensures colorConfig.Some? ==>
      var words := Split(text, " ");
      && |spans| == |words|
      && forall i :: 0 <= i < |words| ==>
        && spans[i].text == words[i] + " "
        && (forall k :: FirstMatchAt(colorConfig.value, words[i], k) ==> spans[i].color == colorConfig.value[k].color)
        && ((forall j :: 0 <= j < |colorConfig.value| ==> !WordMatches(colorConfig.value[j], words[i])) ==>
              spans[i].color == defaultColor)
  {
    match colorConfig
    case None => [Span(text, defaultColor)]
    case Some(cfg) =>
      var words := Split(text, " ");
      seq(|words|, i requires 0 <= i < |words| => Span(words[i] + " ", WordColor(cfg, words[i], defaultColor)))
  }

  /** The concatenated text of a span list. */
  function SpansText(spans: seq<Span>): string
    decreases |spans|
  {
    if |spans| == 0 then "" else spans[0].text + SpansText(spans[1..])
  }

  lemma {:induction false} SpacedWordsText(words: seq<string>, spans: seq<Span>)
    requires |words| >= 1 && |spans| == |words|
    requires forall i :: 0 <= i < |words| ==> spans[i].text == words[i] + " "
    ensures SpansText(spans) == Join(words, " ") + " "
    decreases |words|
  {
    if |words| > 1 {
      SpacedWordsText(words[1..], spans[1..]);
    }
  }

  /**
   * With a colour configuration the spans spell out the text followed by one
   * space; without one, the text itself.
   */
  lemma ProcessTextKeepsText(text: string, colorConfig: Option<seq<ColorConfig>>, defaultColor: string)
    ensures SpansText(ProcessText(text, colorConfig, defaultColor)) ==
      if colorConfig.Some? then text + " " else text
  {
    var spans := ProcessText(text, colorConfig, defaultColor);
    if colorConfig.Some? {
      JoinSplit(text, " ");
      SpacedWordsText(Split(text, " "), spans);
    } else {
      assert SpansText(spans) == text + SpansText([]);
    }
  }

  /** The colour of a word depends only on its lower-cased form. */
  lemma WordColorCaseInsensitive(cfg: seq<ColorConfig>, a: string, b: string, defaultColor: string)
    requires ToLowerCase(a) == ToLowerCase(b)
    ensures WordColor(cfg, a, defaultColor) == WordColor(cfg, b, defaultColor)
  {
    FindColorConfigCaseInsensitive(cfg, a, b);
  }

  lemma {:induction false} FindColorConfigCaseInsensitive(cfg: seq<ColorConfig>, a: string, b: string)
    requires ToLowerCase(a) == ToLowerCase(b)
    ensures FindColorConfig(cfg, a) == FindColorConfig(cfg, b)
    decreases |cfg|
  {
    if |cfg| > 0 {
      FindColorConfigCaseInsensitive(cfg[1..], a, b);
    }
  }

  /** A word takes the colour of the first matching entry, or the default colour when none matches. */
  lemma WordColorFirstMatch(cfg: seq<ColorConfig>, word: string, defaultColor: string, k: nat)
    requires k < |cfg| && WordMatches(cfg[k], word)
    requires forall j :: 0 <= j < k ==> !WordMatches(cfg[j], word)
    ensures WordColor(cfg, word, defaultColor) == cfg[k].color
  {
    var r := FindColorConfig(cfg, word);
    var k' :| FirstMatchAt(cfg, word, k') && r.value == cfg[k'];
    assert k' == k;
  }

  // ---------------------------------------------------------------------------
  // The whole slide
  // ---------------------------------------------------------------------------

  datatype TwoColumnView = TwoColumnView(firstLine: seq<Span>, secondLine: seq<Span>, body: seq<Block>)

  function Render(content: SlideContent): TwoColumnView {
    var lines := HeaderLines(content.header);
    TwoColumnView(
      ProcessText(lines.0, content.colorConfig, DefaultTextColor),
      ProcessText(lines.1, content.colorConfig, DefaultTextColor),
      RenderBody(Paragraphs(SourceText(content))))
  }

  /**
   * The rendered body holds the source text's paragraphs in order, with
   * exactly one separator fewer than there are paragraphs.
   */
  lemma RenderSeparators(content: SlideContent)
    ensures var ps := Paragraphs(SourceText(content));
      && |Render(content).body| == 2 * |ps| - 1
      && CountSeparators(Render(content).body) == |ps| - 1
      && forall k :: 0 <= k < |ps| ==> Render(content).body[2 * k] == Paragraph(ps[k])
  {
    var ps := Paragraphs(SourceText(content));
    ParagraphsRoundTrip(SourceText(content));
    RenderBodyLayout(ps);
  }
}
