/**
 The home page's hero slider: an index into N slides, moved forwards and
 backwards with wrap-around, and a redraw that marks exactly the slide and the
 dot at that index as active. The repeating timer is not part of this module;
 see SlideTimers for its handle bookkeeping.
 */
module Slider {
  import opened Flags

  /** The index after `i`, wrapping from N - 1 to 0 (`(currentSlide + 1) % slides.length`). */
  function NextIndex(i: nat, n: nat): (r: nat)
    requires n > 0
    ensures r < n
  {
    (i + 1) % n
  }

  /** The index before `i`, wrapping from 0 to N - 1. */
  function PrevIndex(i: nat, n: nat): (r: nat)
    requires n > 0
    ensures i <= n ==> r < n
  {
    if i == 0 then n - 1 else i - 1
  }

  /** The index after m forward moves from `i`. */
  function Advance(i: nat, n: nat, m: nat): (r: nat)
    requires n > 0
    ensures m == 0 ==> r == i
    ensures m > 0 ==> r < n
    decreases m
  {
    if m == 0 then i else NextIndex(Advance(i, n, m - 1), n)
  }

  /** The ends wrap onto each other. */
  lemma WrapAround(n: nat)
    requires n > 0
    ensures NextIndex(n - 1, n) == 0
    ensures PrevIndex(0, n) == n - 1
  {
  }

  /** Inside the range, a backward move undoes a forward one and the other way round. */
  lemma PrevNextInverse(i: nat, n: nat)
    requires i < n
    ensures PrevIndex(NextIndex(i, n), n) == i
    ensures NextIndex(PrevIndex(i, n), n) == i
  {
    if i + 1 < n {
      SmallMod(i + 1, n);
    } else {
      SelfMod(n);
    }
    if i == 0 {
      SelfMod(n);
    } else {
      SmallMod(i, n);
    }
  }

  lemma SmallMod(a: nat, n: nat)
    requires a < n
    ensures a % n == a
  {
  }

  lemma SelfMod(n: nat)
    requires n > 0
    ensures n % n == 0
  {
  }

  /** Moves that stay below N simply count up. */
  lemma {:induction false} AdvanceWithinRange(i: nat, n: nat, m: nat)
    requires i + m < n
    ensures Advance(i, n, m) == i + m
  {
    if m > 0 {
      AdvanceWithinRange(i, n, m - 1);
      SmallMod(i + m, n);
    }
  }

  /** a moves followed by b moves are a + b moves. */
  lemma {:induction false} AdvanceCompose(i: nat, n: nat, a: nat, b: nat)
    requires n > 0
    ensures Advance(Advance(i, n, a), n, b) == Advance(i, n, a + b)
  {
    if b > 0 {
      AdvanceCompose(i, n, a, b - 1);
    }
  }

  /** N forward moves return to the starting slide, from any slide in range. */
  lemma FullCycle(i: nat, n: nat)
    requires i < n
    ensures Advance(i, n, n) == i
  {
    AdvanceWithinRange(i, n, n - 1 - i);
    assert Advance(i, n, n - i) == 0 by {
      SelfMod(n);
    }
    AdvanceCompose(i, n, n - i, i);
    AdvanceWithinRange(0, n, i);
  }

  /** Moving round the slides is periodic with period N. */
  lemma Periodic(i: nat, n: nat, m: nat)
    requires i < n
    ensures Advance(i, n, m + n) == Advance(i, n, m)
  {
    FullCycle(i, n);
    AdvanceCompose(i, n, n, m);
  }

  /** After a redraw at k, exactly one slide and one dot are active when k is in their
      range, and none otherwise. */
  lemma RedrawMarksOne(s: HeroSlider, k: int)
    requires s.Shows(k)
    ensures CountTrue(s.slides[..]) == (if 0 <= k < s.slides.Length then 1 else 0)
    ensures CountTrue(s.dots[..]) == (if 0 <= k < s.dots.Length then 1 else 0)
  {
    CountIndicator(s.slides.Length, k);
    CountIndicator(s.dots.Length, k);
  }

  /** The slider of one page: the slides' and the dots' `active` flags, and the current
      index (the script's module-level `currentSlide`, starting at 0). */
  class HeroSlider {
    const slides: array<bool>
    const dots: array<bool>
    var currentSlide: nat

    ghost predicate Valid()
      reads this
    {
      slides != dots
    }

    /** Slide and dot k are the active ones, and no others. */
    ghost predicate Shows(k: int)
      reads this, slides, dots
    {
      slides[..] == Indicator(slides.Length, k) && dots[..] == Indicator(dots.Length, k)
    }

    constructor (slides: array<bool>, dots: array<bool>)
      requires slides != dots
      ensures Valid()
      ensures this.slides == slides && this.dots == dots && currentSlide == 0
    {
      this.slides := slides;
      this.dots := dots;
      currentSlide := 0;
    }

    /** showSlide: every slide and dot is toggled to active exactly when its position
        equals `index`. */
    method ShowSlide(index: int)
      requires Valid()
      modifies slides, dots
      ensures Valid()
      ensures Shows(index)
    {
      for i := 0 to slides.Length
        invariant forall j :: 0 <= j < i ==> slides[j] == (j == index)
      {
        slides[i] := i == index;
      }
      for i := 0 to dots.Length
        invariant forall j :: 0 <= j < i ==> dots[j] == (j == index)
        invariant slides[..] == Indicator(slides.Length, index)
      {
        dots[i] := i == index;
      }
    }

    /** The start of initializeHeroSlider: with no slides nothing happens at all;
        otherwise slide and dot 0 are shown. `currentSlide` is left as it is. */
    method Initialize() returns (started: bool)
      requires Valid()
      modifies slides, dots
      ensures Valid()
      ensures started == (slides.Length > 0)
      ensures started ==> Shows(0)
      ensures !started ==> unchanged(slides) && unchanged(dots)
    {
      if slides.Length == 0 {
        return false;
      }
      ShowSlide(0);
      return true;
    }

    /** The next button, the right arrow key and each timer tick. */
    method Next()
      requires Valid() && slides.Length > 0
      modifies this, slides, dots
      ensures Valid()
      ensures currentSlide == NextIndex(old(currentSlide), slides.Length)
      ensures currentSlide < slides.Length
      ensures Shows(currentSlide)
    {
      currentSlide := (currentSlide + 1) % slides.Length;
      ShowSlide(currentSlide);
    }

    /** The previous button and the left arrow key. */
    method Prev()
      requires Valid() && slides.Length > 0
      modifies this, slides, dots
      ensures Valid()
      ensures currentSlide == PrevIndex(old(currentSlide), slides.Length)
      ensures old(currentSlide) < slides.Length ==> currentSlide < slides.Length
      ensures Shows(currentSlide)
    {
      currentSlide := if currentSlide == 0 then slides.Length - 1 else currentSlide - 1;
      ShowSlide(currentSlide);
    }

    /** A click on dot `index`. With more dots than slides the index can leave the
        slide range, and then no slide is active. */
    method GoTo(index: nat)
      requires Valid() && index < dots.Length
      modifies this, slides, dots
      ensures Valid()
      ensures currentSlide == index
      ensures Shows(index)
    {
      currentSlide := index;
      ShowSlide(currentSlide);
    }

    /** The keydown listener: only the two arrow keys move the slider. */
    method KeyDown(key: string)
      requires Valid() && slides.Length > 0
      modifies this, slides, dots
      ensures Valid()
      ensures key == "ArrowLeft" ==>
        currentSlide == PrevIndex(old(currentSlide), slides.Length) && Shows(currentSlide)
      ensures key == "ArrowRight" ==>
        currentSlide == NextIndex(old(currentSlide), slides.Length) && Shows(currentSlide)
      ensures key != "ArrowLeft" && key != "ArrowRight" ==>
        currentSlide == old(currentSlide) && unchanged(slides) && unchanged(dots)
    {
      if key == "ArrowLeft" {
        Prev();
      } else if key == "ArrowRight" {
        Next();
      }
    }
  }
}
