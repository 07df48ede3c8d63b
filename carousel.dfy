/**
 * The home page's featured carousel: the index of the slide on show, moved
 * forwards and backwards with wrap-around and set directly by the dots
 * under the slides.
 */
module Carousel {

  /** JavaScript's `%`: the remainder takes the sign of the dividend (truncated division). */
  function JsRem(a: int, b: int): (r: int)
    requires b > 0
    ensures a >= 0 ==> 0 <= r < b
    ensures a < 0 ==> -b < r <= 0
  {
    if a >= 0 then a % b else -((-a) % b)
  }

  /** The slide after `i` among `total`, wrapping from the last to the first. */
  function NextIndex(i: int, total: int): int
    requires total > 0
  {
    JsRem(i + 1, total)
  }

  /** The slide before `i` among `total`, wrapping from the first to the last. */
  function PrevIndex(i: int, total: int): int
    requires total > 0
  {
    JsRem(i - 1 + total, total)
  }

  /** For a dividend below twice the divisor the remainder is at most one subtraction away. */
  lemma SmallRem(a: int, b: int)
    requires b > 0 && 0 <= a < 2 * b
    ensures JsRem(a, b) == if a < b then a else a - b
  {
  }

  /** From any index that is not negative, both arrows land on a slide that exists. */
  lemma ArrowsStayInRange(i: int, total: int)
    requires total > 0 && 0 <= i
    ensures 0 <= NextIndex(i, total) < total
    ensures 0 <= PrevIndex(i, total) < total
  {
  }

  /**
   * On a slide that exists the forward arrow moves to the next slide and
   * wraps from the last to the first; the back arrow moves to the previous
   * one and wraps from the first to the last.
   */
  lemma ArrowSteps(i: int, total: int)
    requires total > 0 && 0 <= i < total
    ensures NextIndex(i, total) == if i == total - 1 then 0 else i + 1
    ensures PrevIndex(i, total) == if i == 0 then total - 1 else i - 1
  {
    SmallRem(i + 1, total);
    SmallRem(i - 1 + total, total);
  }

  /** On a slide that exists, the two arrows undo each other. */
  lemma ArrowsAreInverse(i: int, total: int)
    requires total > 0 && 0 <= i < total
    ensures PrevIndex(NextIndex(i, total), total) == i
    ensures NextIndex(PrevIndex(i, total), total) == i
  {
    ArrowSteps(i, total);
    ArrowSteps(NextIndex(i, total), total);
    ArrowSteps(PrevIndex(i, total), total);
  }

  /** The index after `k` presses of the forward arrow (or `k` turns of the auto-rotation). */
  function Advance(i: int, total: int, k: nat): int
    requires total > 0
    decreases k
  {
    if k == 0 then i else NextIndex(Advance(i, total, k - 1), total)
  }

  /** Before the last slide is passed, `k` steps forward move exactly `k` places. */
  lemma {:induction false} AdvanceWithin(i: int, total: int, k: nat)
    requires total > 0 && 0 <= i && i + k < total
    ensures Advance(i, total, k) == i + k
    decreases k
  {
    if k > 0 {
      AdvanceWithin(i, total, k - 1);
      ArrowSteps(i + k - 1, total);
    }
  }

  /** `j + k` steps are `j` steps followed by `k` steps. */
  lemma {:induction false} AdvanceSplit(i: int, total: int, j: nat, k: nat)
    requires total > 0
    ensures Advance(i, total, j + k) == Advance(Advance(i, total, j), total, k)
    decreases k
  {
    if k > 0 {
      AdvanceSplit(i, total, j, k - 1);
      assert j + k - 1 == (j + k) - 1;
    }
  }

  /** Going forward once per slide comes back to the slide one started from. */
  lemma FullTurn(i: int, total: int)
    requires total > 0 && 0 <= i < total
    ensures Advance(i, total, total) == i
  {
    var toLast := total - 1 - i;
    AdvanceWithin(i, total, toLast);
    AdvanceSplit(i, total, toLast, i + 1);
    AdvanceSplit(total - 1, total, 1, i);
    ArrowSteps(total - 1, total);
    assert Advance(total - 1, total, 1) == 0;
    AdvanceWithin(0, total, i);
  }

  /** The carousel of one list of featured titles. */
  class FeaturedCarousel {
    /** `manga.length`. */
    const totalSlides: nat
    var currentSlide: int

    ghost predicate Valid()
      reads this
    {
      0 <= currentSlide && (totalSlides > 0 ==> currentSlide < totalSlides)
    }

    /** The carousel opens on the first slide. */
    constructor (totalSlides: nat)
      ensures Valid()
      ensures this.totalSlides == totalSlides && currentSlide == 0
    {
      this.totalSlides := totalSlides;
      currentSlide := 0;
    }

    /** The forward arrow, also fired every five seconds. */
    method NextSlide()
      requires Valid() && totalSlides > 0
      modifies this`currentSlide
      ensures Valid()
      ensures currentSlide == NextIndex(old(currentSlide), totalSlides)
    {
      currentSlide := JsRem(currentSlide + 1, totalSlides);
    }

    /** The back arrow. */
    method PrevSlide()
      requires Valid() && totalSlides > 0
      modifies this`currentSlide
      ensures Valid()
      ensures currentSlide == PrevIndex(old(currentSlide), totalSlides)
    {
      currentSlide := JsRem(currentSlide - 1 + totalSlides, totalSlides);
    }

    /** The dot at position `index`: the dots are drawn one per slide. */
    method SelectSlide(index: int)
      requires 0 <= index < totalSlides
      modifies this`currentSlide
      ensures Valid()
      ensures currentSlide == index
    {
      currentSlide := index;
    }
  }
}
