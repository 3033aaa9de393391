/**
 * The slide navigation state of `PresentationProvider`
 * (src/context/PresentationContext.tsx): one mutable index into a fixed deck,
 * moved by `nextSlide`, `previousSlide` and `goToSlide`. The three state
 * updaters are pure functions of the previous index; the provider object
 * applies them in place.
 */
module PresentationContext {
  import opened Wrappers
  import opened Slides

  // ---------------------------------------------------------------------------
  // The state updaters
  // ---------------------------------------------------------------------------

  /** `prev < n - 1 ? prev + 1 : prev`. */
  function NextIndex(prev: int, n: nat): (r: int)
    ensures prev < n - 1 ==> r == prev + 1
    ensures prev >= n - 1 ==> r == prev
  {
    if prev < n - 1 then prev + 1 else prev
  }

  /** `prev > 0 ? prev - 1 : prev`. */
  function PreviousIndex(prev: int): (r: int)
    ensures prev > 0 ==> r == prev - 1
    ensures prev <= 0 ==> r == prev
  {
    if prev > 0 then prev - 1 else prev
  }

  /** `goToSlide(index)`: the index moves only to a position of the deck. */
  function GoToIndex(prev: int, index: int, n: nat): (r: int)
    ensures r == index <==> (0 <= index < n || index == prev)
    ensures !(0 <= index < n) ==> r == prev
  {
    if 0 <= index < n then index else prev
  }

  /** The index invariant: never negative, and inside the deck when the deck is not empty. */
  predicate IndexOk(i: int, n: nat) {
    0 <= i && (n > 0 ==> i < n)
  }

  /** Each updater keeps the index invariant. */
  lemma UpdatersKeepIndexOk(i: int, index: int, n: nat)
    requires IndexOk(i, n)
    ensures IndexOk(NextIndex(i, n), n)
    ensures IndexOk(PreviousIndex(i), n)
    ensures IndexOk(GoToIndex(i, index, n), n)
  {
  }

  /** A navigation command. */
  datatype Command = Next | Previous | GoTo(index: int)

  function Apply(i: int, c: Command, n: nat): int {
    match c
    case Next => NextIndex(i, n)
    case Previous => PreviousIndex(i)
    case GoTo(index) => GoToIndex(i, index, n)
  }

  /** The index after a sequence of commands. */
  function Run(i: int, cs: seq<Command>, n: nat): int
    decreases |cs|
  {
    if |cs| == 0 then i else Run(Apply(i, cs[0], n), cs[1..], n)
  }

  /** From the initial index 0, every sequence of commands keeps the index invariant. */
  lemma {:induction false} RunKeepsIndexOk(i: int, cs: seq<Command>, n: nat)
    requires IndexOk(i, n)
    ensures IndexOk(Run(i, cs, n), n)
    decreases |cs|
  {
    if |cs| > 0 {
      UpdatersKeepIndexOk(i, if cs[0].GoTo? then cs[0].index else 0, n);
      RunKeepsIndexOk(Apply(i, cs[0], n), cs[1..], n);
    }
  }

  /** From any index below the last, next then previous comes back. */
  lemma NextThenPrevious(i: int, n: nat)
    requires 0 <= i < n - 1
    ensures PreviousIndex(NextIndex(i, n)) == i
  {
  }

  /** At the ends the moves are no-ops: next at the last slide, previous at the first. */
  lemma NavigationAtEnds(n: nat)
    requires n > 0
    ensures NextIndex(n - 1, n) == n - 1
    ensures PreviousIndex(0) == 0
  {
  }

  // ---------------------------------------------------------------------------
  // The provider
  // ---------------------------------------------------------------------------

  class PresentationProvider {
    const config: PresentationConfig
    var currentSlideIndex: int

    ghost predicate Valid()
      reads this
    {
      IndexOk(currentSlideIndex, |config.slides|)
    }

    /** `useState(0)`. */
    constructor (config: PresentationConfig)
      ensures this.config == config
      ensures currentSlideIndex == 0
      ensures Valid()
    {
      this.config := config;
      currentSlideIndex := 0;
    }

    /** `totalSlides: config.slides.length`. */
    function TotalSlides(): (n: nat)
      ensures n == |config.slides|
    {
      |config.slides|
    }

    function PresentationTitle(): string {
      config.title
    }

    /** `config.slides[currentSlideIndex] || null`. */
    function CurrentSlide(): (s: Option<Slide>)
      reads this
      ensures 0 <= currentSlideIndex < |config.slides| ==> s == Some(config.slides[currentSlideIndex])
      ensures s.None? <==> !(0 <= currentSlideIndex < |config.slides|)
    {
      if 0 <= currentSlideIndex < |config.slides| then Some(config.slides[currentSlideIndex]) else None
    }

    method NextSlide()
      requires Valid()
      modifies this
      ensures Valid()
      ensures currentSlideIndex == NextIndex(old(currentSlideIndex), |config.slides|)
    {
      currentSlideIndex := NextIndex(currentSlideIndex, |config.slides|);
    }

    method PreviousSlide()
      requires Valid()
      modifies this
      ensures Valid()
      ensures currentSlideIndex == PreviousIndex(old(currentSlideIndex))
    {
      currentSlideIndex := PreviousIndex(currentSlideIndex);
    }

    method GoToSlide(index: int)
      requires Valid()
      modifies this
      ensures Valid()
      ensures currentSlideIndex == GoToIndex(old(currentSlideIndex), index, |config.slides|)
    {
      if 0 <= index < |config.slides| {
        currentSlideIndex := index;
      }
    }
  }

  /** Over an empty deck the index stays 0 whatever is called, so the current slide stays null. */
  lemma {:induction false} EmptyDeckStaysAtZero(cs: seq<Command>)
    ensures Run(0, cs, 0) == 0
    decreases |cs|
  {
    if |cs| > 0 {
      EmptyDeckStaysAtZero(cs[1..]);
    }
  }
}
