/**
 * The home page's auto-advancing banner: three slides and one index,
 * moved forward by the next button and the five-second timer and back by
 * the previous button, always modulo the number of slides.
 */
module Banner {

  /** The slides' ids, in display order; the first is the custom banner. */
  const BannerIds: seq<nat> := [1, 2, 3]

  /** `(prev + 1) % n` */
  function Next(i: nat, n: nat): (j: nat)
    requires n > 0
    ensures j < n
  {
    (i + 1) % n
  }

  /** `(prev - 1 + n) % n` */
  function Prev(i: nat, n: nat): (j: nat)
    requires n > 0
    ensures j < n
  {
    (i - 1 + n) % n
  }

  /** The index after `k` steps forward. */
  function Advance(i: nat, k: nat, n: nat): (j: nat)
    requires n > 0
    ensures j < n || (k == 0 && j == i)
  {
    if k == 0 then i else Next(Advance(i, k - 1, n), n)
  }

  /** Going forward wraps the last slide to the first; going back wraps the
      first to the last; elsewhere they move by one. */
  lemma Wraps(i: nat, n: nat)
    requires i < n
    ensures Next(i, n) == if i == n - 1 then 0 else i + 1
    ensures Prev(i, n) == if i == 0 then n - 1 else i - 1
  {
  }

  /** Back undoes forward and forward undoes back. */
  lemma PrevNextInverse(i: nat, n: nat)
    requires i < n
    ensures Prev(Next(i, n), n) == i
    ensures Next(Prev(i, n), n) == i
  {
    Wraps(i, n);
    Wraps(Next(i, n), n);
    Wraps(Prev(i, n), n);
  }

  /** Within one round, `k` steps forward from `i` land on `i + k`, wrapped
      once past the last slide. */
  lemma {:induction false} AdvanceWithinRound(i: nat, k: nat, n: nat)
    requires i < n && k <= n
    ensures Advance(i, k, n) == if i + k < n then i + k else i + k - n
  {
    if k > 0 {
      AdvanceWithinRound(i, k - 1, n);
      Wraps(Advance(i, k - 1, n), n);
    }
  }

  /** `n` steps forward, by button or by timer, return to the start. */
  lemma FullCycle(i: nat, n: nat)
    requires i < n
    ensures Advance(i, n, n) == i
  {
    AdvanceWithinRound(i, n, n);
  }

  class Carousel {
    /** The index of the slide shown. */
    var current: nat

    ghost predicate Valid()
      reads this
    {
      current < |BannerIds|
    }

    constructor ()
      ensures Valid() && current == 0
    {
      current := 0;
    }

    /** `handleNext` */
    method HandleNext()
      requires Valid()
      modifies this
      ensures Valid() && current == Next(old(current), |BannerIds|)
    {
      current := (current + 1) % |BannerIds|;
    }

    /** `handlePrev` */
    method HandlePrev()
      requires Valid()
      modifies this
      ensures Valid() && current == Prev(old(current), |BannerIds|)
    {
      current := (current - 1 + |BannerIds|) % |BannerIds|;
    }

    /** The interval callback, every five seconds. */
    method Tick()
      requires Valid()
      modifies this
      ensures Valid() && current == Next(old(current), |BannerIds|)
    {
      current := (current + 1) % |BannerIds|;
    }

  }

  /** A client of the carousel: three ticks bring it back to the slide it
      showed, and a press of next followed by prev leaves it in place. */
  method CycleAndBack(c: Carousel)
    requires c.Valid()
    modifies c
    ensures c.Valid() && c.current == old(c.current)
  {
    ghost var start := c.current;
    c.Tick();
    c.Tick();
    c.Tick();
    FullCycle(start, |BannerIds|);
    assert c.current == Advance(start, 3, 3);
    c.HandleNext();
    c.HandlePrev();
    PrevNextInverse(start, |BannerIds|);
  }
}
