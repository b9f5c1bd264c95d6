/**
 * Scroll-triggered reveal of the `[data-reveal]` items: each item gets a
 * staggered transition delay and is watched until it first intersects the
 * viewport, when it gains `is-visible` and stops being watched. Under
 * reduced motion, or without `IntersectionObserver`, every item is shown at
 * once.
 */
module Reveal {
  import opened Wrappers

  /** Milliseconds added per item, and the largest delay. */
  const StaggerStepMs: nat := 55
  const StaggerCapMs: nat := 260

  /** `Math.min(index * 55, 260)`: the first five items are staggered by 55 ms
      each, every later item waits the full 260 ms. */
  function StaggerDelay(index: nat): (ms: nat)
    ensures ms <= StaggerCapMs
    ensures index <= 4 ==> ms == StaggerStepMs * index
    ensures index >= 5 ==> ms == StaggerCapMs
  {
    if index * StaggerStepMs < StaggerCapMs then index * StaggerStepMs else StaggerCapMs
  }

  /** Later items never appear before earlier ones would. */
  lemma StaggerMonotone(i: nat, j: nat)
    requires i <= j
    ensures StaggerDelay(i) <= StaggerDelay(j)
  {
  }

  /** One `IntersectionObserverEntry`: the item it is about, by position in
      the list of reveal items, and whether it intersects. */
  datatype Entry = Entry(target: nat, isIntersecting: bool)

  /** Whether `entries` reports item `i` as intersecting. */
  ghost predicate Hit(entries: seq<Entry>, i: nat) {
    exists k | 0 <= k < |entries| :: entries[k].target == i && entries[k].isIntersecting
  }

  /** One more entry adds its own report to those of the entries before it. */
  lemma HitExtend(entries: seq<Entry>, k: nat, i: nat)
    requires k < |entries|
    ensures Hit(entries[..k + 1], i) <==>
      Hit(entries[..k], i) || (entries[k].target == i && entries[k].isIntersecting)
  {
    var entry := entries[k];
    if Hit(entries[..k + 1], i) && !(entry.target == i && entry.isIntersecting) {
      var m :| 0 <= m < k + 1 && entries[..k + 1][m].target == i && entries[..k + 1][m].isIntersecting;
      assert entries[..k][m] == entries[..k + 1][m];
    }
    if Hit(entries[..k], i) {
      var m :| 0 <= m < k && entries[..k][m].target == i && entries[..k][m].isIntersecting;
      assert entries[..k + 1][m] == entries[..k][m];
    }
    if entry.target == i && entry.isIntersecting {
      assert entries[..k + 1][k] == entry;
    }
  }

  class Revealer {
    /** The number of `[data-reveal]` items; the list is fixed at load. */
    const count: nat
    /** Whether an observer was created. */
    var observing: bool
    /** Per item: the `is-visible` class, whether the observer watches it,
        and the `transitionDelay` set on it, in milliseconds. */
    var visible: seq<bool>
    var observed: seq<bool>
    var delays: seq<Option<nat>>

    /** An item is watched exactly while the observer exists and the item is
        not yet shown. */
    ghost predicate Valid()
      reads this
    {
      && |visible| == count && |observed| == count && |delays| == count
      && forall i | 0 <= i < count :: observed[i] <==> observing && !visible[i]
    }

    /** The items as the page delivers them: none shown, none watched. */
    constructor (count: nat)
      ensures Valid() && this.count == count && !observing
      ensures visible == seq(count, _ => false) && observed == seq(count, _ => false)
      ensures delays == seq(count, _ => None)
    {
      this.count := count;
      observing := false;
      visible := seq(count, _ => false);
      observed := seq(count, _ => false);
      delays := seq(count, _ => None);
    }

    /** The set-up run once at load. With items, no reduced motion and an
        `IntersectionObserver`, item `i` gets delay `StaggerDelay(i)` and is
        watched; otherwise every item is shown at once. */
    method Start(reducedMotion: bool, observerAvailable: bool)
      requires Valid() && !observing
      requires forall i | 0 <= i < count :: !visible[i] && delays[i] == None
      modifies this
      ensures Valid()
      ensures observing == (count > 0 && !reducedMotion && observerAvailable)
      ensures observing ==>
        forall i | 0 <= i < count :: delays[i] == Some(StaggerDelay(i)) && !visible[i] && observed[i]
      ensures !observing ==>
        && delays == old(delays)
        && forall i | 0 <= i < count :: visible[i] && !observed[i]
    {
      if count == 0 {
        return;
      }
      if !reducedMotion && observerAvailable {
        observing := true;
        for i := 0 to count
          invariant observing && |delays| == count && |observed| == count && visible == old(visible)
          invariant forall j | 0 <= j < i :: delays[j] == Some(StaggerDelay(j)) && observed[j]
          invariant forall j | i <= j < count :: delays[j] == None && !observed[j]
        {
          delays := delays[i := Some(StaggerDelay(i))];
          observed := observed[i := true];
        }
      } else {
        for i := 0 to count
          invariant !observing && |visible| == count && observed == old(observed) && delays == old(delays)
          invariant forall j | 0 <= j < i :: visible[j]
        {
          visible := visible[i := true];
        }
      }
    }

    /** The observer callback: every intersecting entry shows its item and
        stops watching it; other entries change nothing. A shown item is
        never hidden again. */
    method OnEntries(entries: seq<Entry>)
      requires Valid() && observing
      requires forall k | 0 <= k < |entries| :: entries[k].target < count
      modifies this`visible, this`observed
      ensures Valid()
      ensures forall i | 0 <= i < count :: visible[i] == (old(visible[i]) || Hit(entries, i))
      ensures forall i | 0 <= i < count :: observed[i] == (old(observed[i]) && !Hit(entries, i))
    {
      for k := 0 to |entries|
        invariant Valid()
        invariant forall i | 0 <= i < count :: visible[i] == (old(visible[i]) || Hit(entries[..k], i))
      {
        var entry := entries[k];
        forall i | 0 <= i < count {
          HitExtend(entries, k, i);
        }
        if entry.isIntersecting {
          visible := visible[entry.target := true];
          observed := observed[entry.target := false];
        }
      }
      assert entries[..|entries|] == entries;
    }
  }
}
