/**
 * The mobile navigation menu: the toggle button's `aria-expanded`
 * attribute, the nav's `is-open` class, the handlers that open and close
 * them, and the in-page anchor links that scroll to a section and close
 * the menu.
 */
module Navigation {
  import opened Wrappers

  /** Widths above this close the menu on `resize`. */
  const CollapseMaxWidth: int := 767

  class Menu {
    /** Whether `.menu-toggle` and `.site-nav` exist; the click and resize
        listeners are only installed when both do. */
    const hasToggle: bool
    const hasNav: bool
    /** The toggle's `aria-expanded` attribute, absent or any text. */
    var ariaExpanded: Option<string>
    /** Whether the nav has the `is-open` class. */
    var isOpen: bool

    predicate Wired() {
      hasToggle && hasNav
    }

    /** The attribute and the class tell the same story. The page may start
        out of step; every handler that writes them puts them back in step. */
    ghost predicate Agree()
      reads this
    {
      Wired() ==> (ariaExpanded == Some("true") <==> isOpen)
    }

    constructor (hasToggle: bool, hasNav: bool, ariaExpanded: Option<string>, isOpen: bool)
      ensures this.hasToggle == hasToggle && this.hasNav == hasNav
      ensures this.ariaExpanded == ariaExpanded && this.isOpen == isOpen
    {
      this.hasToggle, this.hasNav := hasToggle, hasNav;
      this.ariaExpanded, this.isOpen := ariaExpanded, isOpen;
    }

    /** `closeMenu`: without both elements nothing happens; otherwise the
        attribute becomes "false" and the class goes. */
    method Close()
      modifies this`ariaExpanded, this`isOpen
      ensures Agree()
      ensures Wired() ==> ariaExpanded == Some("false") && !isOpen
      ensures !Wired() ==> ariaExpanded == old(ariaExpanded) && isOpen == old(isOpen)
    {
      if !Wired() {
        return;
      }
      ariaExpanded := Some("false");
      isOpen := false;
    }

    /** A click on the toggle. The new state is read from the attribute,
        not from the class: the menu opens unless the attribute says "true",
        and both are then written, so they agree afterwards. */
    method ToggleClick()
      modifies this`ariaExpanded, this`isOpen
      ensures Agree()
      ensures Wired() ==>
        && isOpen == (old(ariaExpanded) != Some("true"))
        && ariaExpanded == Some(if old(ariaExpanded) == Some("true") then "false" else "true")
      ensures !Wired() ==> ariaExpanded == old(ariaExpanded) && isOpen == old(isOpen)
    {
      if !Wired() {
        return;
      }
      var expanded := ariaExpanded == Some("true");
      ariaExpanded := Some(if !expanded then "true" else "false");
      isOpen := !expanded;
    }

    /** A click anywhere in the document: the menu closes when the target is
        an element outside the header and the nav is open. */
    method DocumentClick(targetIsElement: bool, insideHeader: bool)
      modifies this`ariaExpanded, this`isOpen
      ensures old(Agree()) ==> Agree()
      ensures Wired() && targetIsElement && old(isOpen) && !insideHeader ==>
        ariaExpanded == Some("false") && !isOpen
      ensures !(Wired() && targetIsElement && old(isOpen) && !insideHeader) ==>
        ariaExpanded == old(ariaExpanded) && isOpen == old(isOpen)
    {
      if !Wired() || !targetIsElement {
        return;
      }
      if isOpen && !insideHeader {
        Close();
      }
    }

    /** A `resize`: any width above the breakpoint closes the menu, whether
        or not it was open. */
    method Resize(innerWidth: int)
      modifies this`ariaExpanded, this`isOpen
      ensures old(Agree()) ==> Agree()
      ensures Wired() && innerWidth > CollapseMaxWidth ==> ariaExpanded == Some("false") && !isOpen
      ensures !(Wired() && innerWidth > CollapseMaxWidth) ==>
        ariaExpanded == old(ariaExpanded) && isOpen == old(isOpen)
    {
      if !Wired() {
        return;
      }
      if innerWidth > CollapseMaxWidth {
        Close();
      }
    }
  }

  /** `scrollIntoView`'s behaviour option. */
  datatype ScrollBehavior = Auto | Smooth

  /** What a click on a `[data-nav-link]` link leads to: the browser follows
      the link, or the handler scrolls to the target itself, optionally
      rewriting the URL to the fragment. */
  datatype AnchorOutcome =
    | FollowLink
    | Intercepted(target: nat, behavior: ScrollBehavior, replacedUrl: Option<string>)

  /** The section a link scrolls to. `targets` holds what
      `document.querySelector(href)` finds on the page; a selector that finds
      nothing, or that throws, has no entry. Only a present, non-empty
      `href` starting with "#" is looked up. */
  function AnchorTarget(href: Option<string>, targets: map<string, nat>): (r: Option<nat>)
    ensures r.Some? <==> href.Some? && |href.value| > 0 && href.value[0] == '#' && href.value in targets
    ensures r.Some? ==> r.value == targets[href.value]
  {
    match href
    case None => None
    case Some(h) =>
      if |h| == 0 || h[0] != '#' then None
      else if h in targets then Some(targets[h])
      else None
  }

  /** The click handler of a navigation link. When the target exists the
      default navigation is prevented, the target is scrolled to (at once
      under reduced motion, smoothly otherwise), the URL is replaced by the
      fragment when `history.replaceState` exists, and the menu closes.
      Otherwise nothing changes and the browser follows the link. */
  method AnchorClick(menu: Menu, href: Option<string>, targets: map<string, nat>,
                     reducedMotion: bool, canReplaceState: bool)
    returns (outcome: AnchorOutcome)
    modifies menu`ariaExpanded, menu`isOpen
    ensures outcome == FollowLink <==> AnchorTarget(href, targets) == None
    ensures outcome.Intercepted? ==>
      && outcome.target == AnchorTarget(href, targets).value
      && outcome.behavior == (if reducedMotion then Auto else Smooth)
      && outcome.replacedUrl == (if canReplaceState then href else None)
    ensures outcome.Intercepted? && menu.Wired() ==> menu.ariaExpanded == Some("false") && !menu.isOpen
    ensures outcome.Intercepted? ==> menu.Agree()
    ensures outcome == FollowLink || !menu.Wired() ==>
      menu.ariaExpanded == old(menu.ariaExpanded) && menu.isOpen == old(menu.isOpen)
  {
    var target := AnchorTarget(href, targets);
    if target.None? {
      return FollowLink;
    }
    var behavior := if reducedMotion then Auto else Smooth;
    var replaced := if canReplaceState then href else None;
    menu.Close();
    outcome := Intercepted(target.value, behavior, replaced);
  }
}
