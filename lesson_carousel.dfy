/** The earlier lessons sidebar: three lessons shown one at a time, with
    Previous and Next buttons that wrap around at either end. */
module LessonCarousel {

  /** The number of entries in the lesson list. */
  const CarouselSize: nat := 3

  /** `(current + 1) % lessons.length` */
  function NextIndex(i: nat, n: nat): (r: nat)
    requires i < n
    ensures r < n
    ensures i + 1 < n ==> r == i + 1
    ensures i + 1 == n ==> r == 0
  {
    (i + 1) % n
  }

  /** `(current - 1 + lessons.length) % lessons.length`; `current` is never
      negative, so JavaScript's remainder and Dafny's agree here. */
  function PrevIndex(i: nat, n: nat): (r: nat)
    requires i < n
    ensures r < n
    ensures i > 0 ==> r == i - 1
    ensures i == 0 ==> r == n - 1
  {
    (i - 1 + n) % n
  }

  /** Previous undoes Next and Next undoes Previous. */
  lemma NextThenPrev(i: nat, n: nat)
    requires i < n
    ensures PrevIndex(NextIndex(i, n), n) == i
    ensures NextIndex(PrevIndex(i, n), n) == i
  {
  }

  /** Pressing Next `k` times. */
  function Forward(i: nat, n: nat, k: nat): (r: nat)
    requires i < n
    ensures r < n
  {
    if k == 0 then i else NextIndex(Forward(i, n, k - 1), n)
  }

  /** Before the end of the list, `k` presses of Next move `k` lessons on. */
  lemma {:induction false} ForwardNoWrap(i: nat, n: nat, k: nat)
    requires i + k < n
    ensures Forward(i, n, k) == i + k
  {
    if k > 0 {
      ForwardNoWrap(i, n, k - 1);
    }
  }

  /** Presses compose: `a` presses, then `b` more. */
  lemma {:induction false} ForwardSplit(i: nat, n: nat, a: nat, b: nat)
    requires i < n
    ensures Forward(i, n, a + b) == Forward(Forward(i, n, a), n, b)
  {
    if b > 0 {
      ForwardSplit(i, n, a, b - 1);
    }
  }

  /** Pressing Next as many times as there are lessons comes back to the
      lesson one started from, and the walk is periodic with that period. */
  lemma FullCycle(i: nat, n: nat)
    requires i < n
    ensures Forward(i, n, n) == i
  {
    ForwardNoWrap(i, n, n - 1 - i);
    assert Forward(i, n, n - i) == 0;
    ForwardSplit(i, n, n - i, i);
    ForwardNoWrap(0, n, i);
  }

  lemma Periodic(i: nat, n: nat, k: nat)
    requires i < n
    ensures Forward(i, n, k + n) == Forward(i, n, k)
  {
    ForwardSplit(i, n, k, n);
    FullCycle(Forward(i, n, k), n);
  }

  class Carousel {
    var current: nat

    ghost predicate Valid()
      reads this
    {
      current < CarouselSize
    }

    constructor ()
      ensures Valid() && current == 0
    {
      current := 0;
    }

    /** `handleNext`: the following lesson, the first after the last; it is
        opened and reported. */
    method HandleNext() returns (shown: nat)
      requires Valid()
      modifies this
      ensures Valid() && current == NextIndex(old(current), CarouselSize) && shown == current
    {
      current := NextIndex(current, CarouselSize);
      shown := current;
    }

    /** `handlePrev`: the preceding lesson, the last before the first. */
    method HandlePrev() returns (shown: nat)
      requires Valid()
      modifies this
      ensures Valid() && current == PrevIndex(old(current), CarouselSize) && shown == current
    {
      current := PrevIndex(current, CarouselSize);
      shown := current;
    }
  }
}
