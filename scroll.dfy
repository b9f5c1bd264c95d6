/**
 * The two scroll effects: the header's `scrolled` class, and the hero
 * parallax, whose transform is recomputed at most once per animation frame.
 * Scroll positions are real numbers of CSS pixels.
 */
module ScrollEffects {
  import opened Wrappers

  /** Scrolled past this many pixels, the header is styled as scrolled. */
  const ScrolledThreshold: real := 12.0
  /** The parallax moves this fraction of the scroll distance... */
  const ParallaxRate: real := 0.08
  /** ...and never more than this many pixels. */
  const ParallaxCap: real := 28.0

  class Header {
    /** Whether `.site-header` exists. */
    const present: bool
    /** Whether it has the `scrolled` class. */
    var scrolled: bool

    /** `setHeaderState` runs once at load, before any scroll event. */
    constructor (present: bool, initiallyScrolled: bool, scrollY: real)
      ensures this.present == present
      ensures scrolled == if present then scrollY > ScrolledThreshold else initiallyScrolled
    {
      this.present := present;
      scrolled := initiallyScrolled;
      new;
      OnScroll(scrollY);
    }

    /** `setHeaderState` on a scroll event: the class is forced to whether
        the page is scrolled past the threshold; without a header nothing
        happens. */
    method OnScroll(scrollY: real)
      modifies this`scrolled
      ensures present ==> (scrolled <==> scrollY > ScrolledThreshold)
      ensures !present ==> scrolled == old(scrolled)
    {
      if !present {
        return;
      }
      scrolled := scrollY > ScrolledThreshold;
    }
  }

  /** `Math.min(scrollY * 0.08, 28)`: proportional to the scroll up to
      350 px, capped from there on. */
  function ParallaxOffset(scrollY: real): (px: real)
    ensures px <= ParallaxCap
    ensures scrollY <= 350.0 ==> px == scrollY * ParallaxRate
    ensures scrollY >= 350.0 ==> px == ParallaxCap
    ensures 0.0 <= scrollY ==> 0.0 <= px
  {
    if scrollY * ParallaxRate < ParallaxCap then scrollY * ParallaxRate else ParallaxCap
  }

  /** Scrolling further down never moves the layer back up. */
  lemma ParallaxMonotone(a: real, b: real)
    requires a <= b
    ensures ParallaxOffset(a) <= ParallaxOffset(b)
  {
  }

  class Parallax {
    /** Whether `[data-parallax]` exists and motion is not reduced; only
        then is the scroll listener installed. */
    const active: bool
    /** The `ticking` flag of the script. */
    var ticking: bool
    /** Animation frames requested and not yet run. */
    var pendingFrames: nat
    /** The `translateY` of the layer, in pixels, once a frame has run. */
    var offset: Option<real>

    /** A frame is pending exactly while `ticking` is set, so at most one
        is ever pending. */
    ghost predicate Valid()
      reads this
    {
      && pendingFrames == (if ticking then 1 else 0)
      && (!active ==> !ticking)
    }

    /** Set-up at load: when active, `requestParallax` runs once at once. */
    constructor (present: bool, reducedMotion: bool)
      ensures Valid()
      ensures active == (present && !reducedMotion)
      ensures ticking == active && offset == None
    {
      active := present && !reducedMotion;
      ticking, pendingFrames, offset := false, 0, None;
      new;
      if active {
        RequestFrame();
      }
    }

    /** `requestParallax`, on a scroll event: a frame is requested unless one
        already is. */
    method RequestFrame()
      requires Valid()
      modifies this`ticking, this`pendingFrames
      ensures Valid()
      ensures pendingFrames <= 1
      ensures active ==> ticking
      ensures pendingFrames == if active && !old(ticking) then old(pendingFrames) + 1 else old(pendingFrames)
    {
      if !active || ticking {
        return;
      }
      ticking := true;
      pendingFrames := pendingFrames + 1;
    }

    /** `updateParallax`, when the requested frame runs: the offset is
        computed from the scroll position at that moment, and the next
        scroll event may request a frame again. */
    method FrameFires(scrollY: real)
      requires Valid() && pendingFrames > 0
      modifies this`ticking, this`pendingFrames, this`offset
      ensures Valid()
      ensures offset == Some(ParallaxOffset(scrollY))
      ensures !ticking && pendingFrames == old(pendingFrames) - 1
    {
      offset := Some(ParallaxOffset(scrollY));
      ticking := false;
      pendingFrames := pendingFrames - 1;
    }
  }
}
