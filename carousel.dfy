/**
  The hero carousel: the `active` flags of the slide elements, the index of the
  shown slide and whether the rotation timer is running. A timer period that
  elapses is an explicit `Tick`; hovering the hero region pauses the rotation
  and leaving it restarts the timer.
 */
module Carousel {

  /** The slide shown after slide `i` of `n`: the next one, or the first after the last. */
  function NextSlide(i: nat, n: nat): (r: nat)
    requires i < n
    ensures r < n
    ensures i + 1 < n ==> r == i + 1
    ensures i + 1 == n ==> r == 0
  {
    (i + 1) % n
  }

  /** The slide shown after `k` slide changes from the first slide. */
  function IndexAfter(n: nat, k: nat): (r: nat)
    requires n > 0
    ensures r < n
  {
    if k == 0 then 0 else NextSlide(IndexAfter(n, k - 1), n)
  }

  /** After `k` slide changes the shown slide is `k mod n`. */
  lemma {:induction false} IndexAfterIsMod(n: nat, k: nat)
    requires n > 0
    ensures IndexAfter(n, k) == k % n
  {
    if k > 0 {
      IndexAfterIsMod(n, k - 1);
      ModSucc(k - 1, n);
    }
  }

  /** Adding one to `x` adds one to its remainder, wrapping to zero at `n`. */
  lemma ModSucc(x: nat, n: nat)
    requires n > 0
    ensures (x + 1) % n == if x % n + 1 < n then x % n + 1 else 0
  {
    var q, r := x / n, x % n;
    assert x == q * n + r;
    if r + 1 < n {
      ModOfSum(q, n, r + 1);
    } else {
      assert x + 1 == (q + 1) * n + 0;
      ModOfSum(q + 1, n, 0);
    }
  }

  lemma {:induction false} MulAtLeast(a: nat, n: nat)
    requires a >= 1
    ensures a * n >= n
  {
    if a > 1 {
      MulAtLeast(a - 1, n);
      assert a * n == (a - 1) * n + n;
    }
  }

  /** Euclidean division is unique: `q * n + r` with `r < n` leaves remainder `r`. */
  lemma ModOfSum(q: nat, n: nat, r: nat)
    requires r < n
    ensures (q * n + r) % n == r
  {
    var x := q * n + r;
    var d, m := x / n, x % n;
    assert x == d * n + m;
    if q > d {
      assert q * n == d * n + (q - d) * n;
      MulAtLeast(q - d, n);
      assert false;
    } else if d > q {
      assert d * n == q * n + (d - q) * n;
      MulAtLeast(d - q, n);
      assert false;
    }
  }

  class HeroCarousel {
    /** The `active` flag of each slide element, in document order. */
    const slides: array<bool>
    /** Whether the hero region exists, so that the hover handlers are registered. */
    const hasHero: bool
    var current: nat
    var timerRunning: bool
    /** The number of slide changes since initialisation. */
    ghost var advances: nat

    /** Exactly the shown slide is active, and it is the one reached after `advances` changes. */
    ghost predicate Valid()
      reads this, slides
    {
      if slides.Length == 0 then
        !timerRunning && current == 0 && advances == 0
      else
        && current == IndexAfter(slides.Length, advances)
        && forall i :: 0 <= i < slides.Length ==> slides[i] == (i == current)
    }

    /**
      Initialisation over the slides as the page marks them up. Only the first
      slide gets the `active` mark, so no other slide may already carry it.
      Without slides the carousel stays inert and no timer is started.
     */
    constructor (markup: seq<bool>, hasHero: bool)
      requires forall i :: 0 < i < |markup| ==> !markup[i]
      ensures Valid() && fresh(slides)
      ensures slides.Length == |markup| && this.hasHero == hasHero
      ensures slides.Length > 0 ==> slides[0] && forall i :: 0 < i < slides.Length ==> !slides[i]
      ensures current == 0 && advances == 0
      ensures timerRunning <==> |markup| > 0
    {
      slides := new bool[|markup|](i requires 0 <= i < |markup| => markup[i]);
      this.hasHero := hasHero;
      current := 0;
      advances := 0;
      timerRunning := |markup| > 0;
      new;
      if |markup| > 0 {
        slides[0] := true;
      }
    }

    /** Unmark the shown slide, move to the next one circularly and mark it. */
    method ShowNextSlide()
      requires Valid() && slides.Length > 0
      modifies this`current, this`advances, slides
      ensures Valid()
      ensures current == NextSlide(old(current), slides.Length)
      ensures advances == old(advances) + 1 && current == advances % slides.Length
      ensures forall i :: 0 <= i < slides.Length ==> slides[i] == (i == current)
    {
      slides[current] := false;
      current := NextSlide(current, slides.Length);
      slides[current] := true;
      advances := advances + 1;
      IndexAfterIsMod(slides.Length, advances);
    }

    /** One timer period elapses: the rotation advances only while the timer runs. */
    method Tick()
      requires Valid()
      modifies this`current, this`advances, slides
      ensures Valid()
      ensures old(timerRunning) ==>
        && slides.Length > 0
        && current == NextSlide(old(current), slides.Length)
        && advances == old(advances) + 1
      ensures !old(timerRunning) ==>
        current == old(current) && advances == old(advances) && slides[..] == old(slides[..])
    {
      if timerRunning {
        ShowNextSlide();
      }
    }

    /** The mouse enters the hero region: the timer is cleared. */
    method MouseEnter()
      requires Valid()
      modifies this`timerRunning
      ensures Valid()
      ensures timerRunning == (old(timerRunning) && !(hasHero && slides.Length > 0))
    {
      if hasHero && slides.Length > 0 {
        timerRunning := false;
      }
    }

    /** The mouse leaves the hero region: a fresh timer is started. */
    method MouseLeave()
      requires Valid()
      modifies this`timerRunning
      ensures Valid()
      ensures timerRunning == (old(timerRunning) || (hasHero && slides.Length > 0))
    {
      if hasHero && slides.Length > 0 {
        timerRunning := true;
      }
    }
  }
}
