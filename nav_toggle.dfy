/**
  The mobile navigation toggle: the `active` marks on the menu panel and on the
  hamburger control. A hamburger click flips both; a click on any navigation
  link removes both.
 */
module NavToggle {

  class NavMenu {
    /** Whether the page has the hamburger control; its click handler exists only then. */
    const hasHamburger: bool
    /** The `active` mark on the menu panel. */
    var menuOpen: bool
    /** The `active` mark on the hamburger control. */
    var hamburgerOpen: bool
    /** Hamburger clicks since the page loaded or since the last navigation-link click. */
    ghost var clicks: nat

    /** The two marks agree, and the menu is open exactly after an odd number of clicks. */
    ghost predicate Valid()
      reads this
    {
      && hamburgerOpen == menuOpen
      && menuOpen == (clicks % 2 == 1)
      && (!hasHamburger ==> clicks == 0)
    }

    /** The page as loaded: neither element carries the mark. */
    constructor (hasHamburger: bool)
      ensures Valid() && this.hasHamburger == hasHamburger
      ensures !menuOpen && !hamburgerOpen && clicks == 0
    {
      this.hasHamburger := hasHamburger;
      menuOpen, hamburgerOpen := false, false;
      clicks := 0;
    }

    /** A click on the hamburger control toggles both marks together. */
    method ClickHamburger()
      requires Valid() && hasHamburger
      modifies this
      ensures Valid()
      ensures menuOpen == !old(menuOpen) && hamburgerOpen == !old(hamburgerOpen)
      ensures clicks == old(clicks) + 1
    {
      menuOpen := !menuOpen;
      hamburgerOpen := !hamburgerOpen;
      clicks := clicks + 1;
    }

    /**
      A click on a navigation link removes both marks, whatever they were.
      Without a hamburger control the handler closes the menu and then fails
      on the missing element: `failed` reports that.
     */
    method ClickNavLink() returns (failed: bool)
      requires Valid()
      modifies this
      ensures Valid()
      ensures !menuOpen && !hamburgerOpen && clicks == 0
      ensures failed <==> !hasHamburger
    {
      menuOpen := false;
      if !hasHamburger {
        clicks := 0;
        return true;
      }
      hamburgerOpen := false;
      clicks := 0;
      failed := false;
    }
  }
}
