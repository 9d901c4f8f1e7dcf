/** The state behind the landing page's product-preview carousel and quote
    rotation (app/page.tsx): the slide index and animation direction, the
    pointer-down record of a swipe, and the rotating quote's index. Rendering,
    timers and hover pausing are not modelled; a timer firing is an event. */
module Page {
  import opened Wrappers

  /** Entries of the `slides` and `quotes` lists. */
  const SlideCount := 3
  const QuoteCount := 5

  /** A horizontal movement shorter than this is not a swipe. */
  const SwipeDistance := 40
  /** A vertical movement longer than this is a scroll, not a swipe. */
  const VerticalTolerance := 60

  function Abs(x: int): nat {
    if x < 0 then -x else x
  }

  /** JavaScript's `%` on integers: truncating division, so the remainder
      takes the sign of the dividend. */
  function JsRem(a: int, b: int): (r: int)
    requires b != 0
    ensures Abs(r) < Abs(b)
    ensures a >= 0 ==> r == a % Abs(b)
    ensures a < 0 ==> r == -((-a) % Abs(b))
  {
    var m := Abs(a) % Abs(b);
    if a < 0 then -m else m
  }

  /** The index after `i` in a ring of `n`: `(i + 1) % n`. */
  function Succ(i: int, n: int): (r: int)
    requires n > 0
    ensures i >= -1 ==> 0 <= r < n
    ensures 0 <= i < n ==> r == (if i == n - 1 then 0 else i + 1)
  {
    SmallMod(i + 1, n);
    JsRem(i + 1, n)
  }

  /** The index before `i` in a ring of `n`: `(i - 1 + n) % n`. */
  function Pred(i: int, n: int): (r: int)
    requires n > 0
    ensures i >= 1 - n ==> 0 <= r < n
    ensures 0 <= i < n ==> r == (if i == 0 then n - 1 else i - 1)
  {
    var x := i - 1 + n;
    SmallMod(x, n);
    JsRem(x, n)
  }

  /** Dafny's `%` on `[0, 2n)`: at most one subtraction of `n`. */
  lemma SmallMod(x: int, n: int)
    requires n > 0
    ensures 0 <= x < n ==> x % n == x
    ensures n <= x < 2 * n ==> x % n == x - n
  {
  }

  /** The `animDir` state: "next" slides in from the right, "prev" from the
      left. */
  datatype AnimDir = Forward | Backward

  datatype Carousel = Carousel(index: int, animDir: AnimDir)

  /** `next()`: one slide on, wrapping from the last to the first. */
  function Next(c: Carousel, n: int): (r: Carousel)
    requires n > 0
    ensures r.animDir == Forward
    ensures 0 <= c.index < n ==> 0 <= r.index < n && Pred(r.index, n) == c.index
  {
    Carousel(Succ(c.index, n), Forward)
  }

  /** `prev()`: one slide back, wrapping from the first to the last. */
  function Prev(c: Carousel, n: int): (r: Carousel)
    requires n > 0
    ensures r.animDir == Backward
    ensures 0 <= c.index < n ==> 0 <= r.index < n && Succ(r.index, n) == c.index
  {
    Carousel(Pred(c.index, n), Backward)
  }

  /** `goTo(i)`: jump to slide `i`, animating forwards when moving to a later
      slide; a jump to the current slide does nothing. */
  function GoTo(c: Carousel, i: int): (r: Carousel)
    ensures r.index == i
    ensures i == c.index ==> r == c
    ensures i != c.index ==> (r.animDir == Forward <==> i > c.index)
  {
    if i == c.index then c
    else Carousel(i, if i > c.index then Forward else Backward)
  }

  /** Away from the wrap-around, jumping to a neighbouring slide is the same
      transition as the arrow buttons. */
  lemma GoToNeighbour(c: Carousel, n: int)
    requires n > 0 && 0 <= c.index < n
    ensures c.index + 1 < n ==> GoTo(c, c.index + 1) == Next(c, n)
    ensures c.index > 0 ==> GoTo(c, c.index - 1) == Prev(c, n)
  {
  }

  /** `k` successive steps round a ring of `n`, from `i`. */
  function Advance(i: int, n: int, k: nat): (r: int)
    requires n > 0
    ensures 0 <= i < n ==> 0 <= r < n
    decreases k
  {
    if k == 0 then i else Succ(Advance(i, n, k - 1), n)
  }

  /** Within one lap, `k` steps from `i` land on `i + k`, wrapped once
      past the end. */
  lemma {:induction false} AdvanceWithinLap(i: int, n: int, k: nat)
    requires n > 0 && 0 <= i < n
    ensures i + k < n ==> Advance(i, n, k) == i + k
    ensures n <= i + k < 2 * n ==> Advance(i, n, k) == i + k - n
  {
    if k > 0 {
      AdvanceWithinLap(i, n, k - 1);
    }
  }

  /** `n` more steps change nothing. */
  lemma {:induction false} AdvancePeriodic(i: int, n: int, k: nat)
    requires n > 0 && 0 <= i < n
    ensures Advance(i, n, k + n) == Advance(i, n, k)
  {
    if k == 0 {
      AdvanceWithinLap(i, n, n);
    } else {
      AdvancePeriodic(i, n, k - 1);
    }
  }

  /** The number of forward steps from `i` to `j` round a ring of `n`. */
  function Distance(i: int, j: int, n: int): (d: nat)
    requires 0 <= i < n && 0 <= j < n
    ensures d < n
  {
    if i <= j then j - i else j - i + n
  }

  /** Stepping round a ring of `n` returns to the start after `n` steps and
      visits every position in fewer. */
  lemma AdvanceCycles(i: int, n: int)
    requires n > 0 && 0 <= i < n
    ensures Advance(i, n, n) == i
    ensures forall j :: 0 <= j < n ==> Advance(i, n, Distance(i, j, n)) == j
  {
    AdvanceWithinLap(i, n, n);
    forall j | 0 <= j < n
      ensures Advance(i, n, Distance(i, j, n)) == j
    {
      AdvanceWithinLap(i, n, Distance(i, j, n));
    }
  }

  /** `k` presses of the next arrow (or autoplay ticks). */
  function NextTimes(c: Carousel, n: int, k: nat): (r: Carousel)
    requires n > 0
    decreases k
  {
    if k == 0 then c else Next(NextTimes(c, n, k - 1), n)
  }

  /** `n` `next` steps come back to the starting slide, and every slide is
      reached within fewer. */
  lemma {:induction false} NextTimesCycles(c: Carousel, n: int, k: nat)
    requires n > 0 && 0 <= c.index < n
    ensures NextTimes(c, n, k).index == Advance(c.index, n, k)
    ensures k > 0 ==> NextTimes(c, n, k).animDir == Forward
    ensures NextTimes(c, n, n).index == c.index
  {
    if k > 0 {
      NextTimesCycles(c, n, k - 1);
    }
    AdvanceCycles(c.index, n);
    NextTimesIndex(c, n, n);
  }

  lemma {:induction false} NextTimesIndex(c: Carousel, n: int, k: nat)
    requires n > 0
    ensures NextTimes(c, n, k).index == Advance(c.index, n, k)
  {
    if k > 0 {
      NextTimesIndex(c, n, k - 1);
    }
  }

  /** A pointer position, in whole pixels. */
  datatype Point = Point(x: int, y: int)

  datatype Swipe = NoSwipe | SwipeLeft | SwipeRight

  /** The gesture test of `onPointerUp`: a swipe moves at least
      `SwipeDistance` sideways and at most `VerticalTolerance` up or down. */
  function Classify(dx: int, dy: int): (s: Swipe)
    ensures s == SwipeLeft <==> dx <= -SwipeDistance && Abs(dy) <= VerticalTolerance
    ensures s == SwipeRight <==> dx >= SwipeDistance && Abs(dy) <= VerticalTolerance
  {
    if Abs(dx) < SwipeDistance then NoSwipe
    else if Abs(dy) > VerticalTolerance then NoSwipe
    else if dx < 0 then SwipeLeft
    else SwipeRight
  }

  /** Mirroring a gesture left-to-right swaps its direction; flipping it
      upside down changes nothing. */
  lemma ClassifyMirror(dx: int, dy: int)
    ensures Classify(-dx, dy) == match Classify(dx, dy)
      case NoSwipe => NoSwipe
      case SwipeLeft => SwipeRight
      case SwipeRight => SwipeLeft
    ensures Classify(dx, -dy) == Classify(dx, dy)
  {
  }

  /** The page state the handlers touch. */
  datatype PageState = PageState(carousel: Carousel, pointerDown: Option<Point>, quoteIndex: int)

  const Initial := PageState(Carousel(0, Forward), None, 0)

  /** `onPointerDown`: remember where the pointer went down. */
  function OnPointerDown(p: PageState, at: Point): (r: PageState)
    ensures r.pointerDown == Some(at)
    ensures r.carousel == p.carousel && r.quoteIndex == p.quoteIndex
  {
    p.(pointerDown := Some(at))
  }

  /** `onPointerUp`: without a recorded pointer-down, nothing; otherwise
      forget it, and a swipe to the left shows the next slide, one to the
      right the previous slide. */
  function OnPointerUp(p: PageState, at: Point): (r: PageState)
    ensures p.pointerDown.None? ==> r == p
    ensures r.pointerDown.None? && r.quoteIndex == p.quoteIndex
    ensures p.pointerDown.Some? ==>
      var dx, dy := at.x - p.pointerDown.value.x, at.y - p.pointerDown.value.y;
      && (Abs(dx) < SwipeDistance || Abs(dy) > VerticalTolerance ==> r.carousel == p.carousel)
      && (dx <= -SwipeDistance && Abs(dy) <= VerticalTolerance ==> r.carousel == Next(p.carousel, SlideCount))
      && (dx >= SwipeDistance && Abs(dy) <= VerticalTolerance ==> r.carousel == Prev(p.carousel, SlideCount))
  {
    match p.pointerDown
    case None => p
    case Some(down) =>
      var released := p.(pointerDown := None);
      match Classify(at.x - down.x, at.y - down.y)
      case NoSwipe => released
      case SwipeLeft => released.(carousel := Next(p.carousel, SlideCount))
      case SwipeRight => released.(carousel := Prev(p.carousel, SlideCount))
  }

  /** A swipe to the left followed by a swipe to the right comes back to the
      slide it started on. */
  lemma SwipeThereAndBack(p: PageState, a: Point, b: Point, c: Point, d: Point)
    requires 0 <= p.carousel.index < SlideCount
    requires Classify(b.x - a.x, b.y - a.y) == SwipeLeft
    requires Classify(d.x - c.x, d.y - c.y) == SwipeRight
    ensures OnPointerUp(OnPointerDown(OnPointerUp(OnPointerDown(p, a), b), c), d).carousel.index == p.carousel.index
  {
  }

  /** The quote-rotation timer's step: the next quote, wrapping round. */
  function RotateQuote(q: int): (r: int)
    ensures 0 <= q < QuoteCount ==> 0 <= r < QuoteCount && Pred(r, QuoteCount) == q
  {
    Succ(q, QuoteCount)
  }

  /** The rotating quote starts at the first and shows every quote in turn,
      then starts over. */
  lemma QuoteRotationCycles(k: nat)
    ensures k < QuoteCount ==> Advance(0, QuoteCount, k) == k
    ensures Advance(0, QuoteCount, k + QuoteCount) == Advance(0, QuoteCount, k)
  {
    AdvanceWithinLap(0, QuoteCount, k);
    AdvancePeriodic(0, QuoteCount, k);
  }

  /** What can happen to the page: the arrow buttons, a dot button, the
      autoplay timer, the quote timer and the pointer. */
  datatype Event =
    | PrevClicked
    | NextClicked
    | DotClicked(slide: int)
    | AutoAdvance
    | QuoteTick
    | PointerDown(at: Point)
    | PointerUp(at: Point)

  /** Only the dots of existing slides can be clicked. */
  predicate Possible(e: Event) {
    e.DotClicked? ==> 0 <= e.slide < SlideCount
  }

  function Step(p: PageState, e: Event): (r: PageState)
    ensures e.QuoteTick? ==> r.quoteIndex == RotateQuote(p.quoteIndex) && r.carousel == p.carousel
    ensures !e.QuoteTick? ==> r.quoteIndex == p.quoteIndex
  {
    match e
    case PrevClicked => p.(carousel := Prev(p.carousel, SlideCount))
    case NextClicked => p.(carousel := Next(p.carousel, SlideCount))
    case DotClicked(i) => p.(carousel := GoTo(p.carousel, i))
    case AutoAdvance => p.(carousel := Next(p.carousel, SlideCount))
    case QuoteTick => p.(quoteIndex := RotateQuote(p.quoteIndex))
    case PointerDown(at) => OnPointerDown(p, at)
    case PointerUp(at) => OnPointerUp(p, at)
  }

  /** The slide index and quote index name an existing slide and quote. */
  predicate Valid(p: PageState) {
    0 <= p.carousel.index < SlideCount && 0 <= p.quoteIndex < QuoteCount
  }

  function Replay(p: PageState, es: seq<Event>): (r: PageState)
    decreases |es|
  {
    if es == [] then p else Replay(Step(p, es[0]), es[1..])
  }

  /** Every state reachable from the initial page by possible events names
      an existing slide and quote. */
  lemma {:induction false} ReplayKeepsValid(p: PageState, es: seq<Event>)
    requires Valid(p)
    requires forall k :: 0 <= k < |es| ==> Possible(es[k])
    ensures Valid(Replay(p, es))
    decreases |es|
  {
    if es != [] {
      assert Possible(es[0]);
      StepKeepsValid(p, es[0]);
      assert forall k :: 0 <= k < |es[1..]| ==> es[1..][k] == es[k + 1];
      ReplayKeepsValid(Step(p, es[0]), es[1..]);
    }
  }

  lemma StepKeepsValid(p: PageState, e: Event)
    requires Valid(p) && Possible(e)
    ensures Valid(Step(p, e))
  {
  }

  lemma InitialIsValid()
    ensures Valid(Initial)
  {
  }

  /** Stepping once more at the front is stepping once more at the end. */
  lemma {:induction false} AdvanceShift(i: int, n: int, k: nat)
    requires n > 0
    ensures Advance(Succ(i, n), n, k) == Advance(i, n, k + 1)
    decreases k
  {
    if k > 0 {
      AdvanceShift(i, n, k - 1);
    }
  }

  /** `k` firings of the quote timer in a row. */
  function Ticks(k: nat): (es: seq<Event>)
    ensures |es| == k && forall j :: 0 <= j < k ==> es[j] == QuoteTick
  {
    seq(k, _ => QuoteTick)
  }

  /** `k` firings of the quote timer move the quote `k` steps round the
      quotes and touch nothing else on the page. */
  lemma {:induction false} QuoteTicksRotate(p: PageState, k: nat)
    ensures Replay(p, Ticks(k)).quoteIndex == Advance(p.quoteIndex, QuoteCount, k)
    ensures Replay(p, Ticks(k)).carousel == p.carousel
    ensures Replay(p, Ticks(k)).pointerDown == p.pointerDown
    decreases k
  {
    if k > 0 {
      var p' := Step(p, QuoteTick);
      assert Ticks(k)[0] == QuoteTick;
      assert Ticks(k)[1..] == Ticks(k - 1);
      QuoteTicksRotate(p', k - 1);
      AdvanceShift(p.quoteIndex, QuoteCount, k - 1);
    }
  }

  /** From the initial page the timer shows the quotes in order, one per
      firing, and starts over after the last. */
  lemma QuoteTimerCycles(k: nat)
    ensures k < QuoteCount ==> Replay(Initial, Ticks(k)).quoteIndex == k
    ensures Replay(Initial, Ticks(k + QuoteCount)).quoteIndex == Replay(Initial, Ticks(k)).quoteIndex
  {
    QuoteTicksRotate(Initial, k);
    QuoteTicksRotate(Initial, k + QuoteCount);
    QuoteRotationCycles(k);
  }
}
