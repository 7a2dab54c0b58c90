/**
 The mobile navigation menu: MobileNav keeps whether the menu is open, and
 the menu element's "active" class, which toggle flips and close removes
 together with the flag. A page-wide Escape-key listener outside the class
 also removes the class, but leaves the flag alone.
 */
module Navigation {

  class MobileNav {
    var isOpen: bool
    /** Whether the menu element carries the "active" class. */
    var menuActive: bool

    /** The class on the menu shows whether the menu is open; toggle and close keep this, the Escape listener does not. */
    ghost predicate Valid()
      reads this
    {
      menuActive == isOpen
    }

    /** The menu starts closed (the page's menu element starts without the "active" class). */
    constructor()
      ensures !isOpen && !menuActive
      ensures Valid()
    {
      isOpen := false;
      menuActive := false;
    }

    method Toggle()
      modifies this
      ensures isOpen == !old(isOpen)
      ensures menuActive == !old(menuActive)
      ensures old(Valid()) ==> Valid()
    {
      isOpen := !isOpen;
      menuActive := !menuActive;
    }

    method Close()
      modifies this
      ensures !isOpen && !menuActive
      ensures Valid()
    {
      isOpen := false;
      menuActive := false;
    }
  }

  /** The document's Escape-key listener: it removes the menu's "active" class and leaves isOpen as it was. */
  method EscapePressed(nav: MobileNav)
    modifies nav`menuActive
    ensures !nav.menuActive && nav.isOpen == old(nav.isOpen)
  {
    nav.menuActive := false;
  }

  /**
   Open the menu, press Escape, press the hamburger: the menu is shown again
   while the manager believes it is closed, so the hamburger is drawn closed
   over an open menu.
   */
  method EscapeDesynchronisesMenu() returns (isOpen: bool, active: bool)
    ensures !isOpen && active
  {
    var nav := new MobileNav();
    nav.Toggle();
    EscapePressed(nav);
    nav.Toggle();
    isOpen, active := nav.isOpen, nav.menuActive;
  }

  /** Escape handled by closing the menu through the manager, which keeps flag and class together. */
  method CloseOnEscape(nav: MobileNav)
    modifies nav
    ensures !nav.isOpen && !nav.menuActive && nav.Valid()
  {
    nav.Close();
  }

  /** The same sequence with the corrected Escape handling: the hamburger opens the menu again and both agree. */
  method EscapeThenToggleReopens() returns (isOpen: bool, active: bool)
    ensures isOpen && active
  {
    var nav := new MobileNav();
    nav.Toggle();
    CloseOnEscape(nav);
    nav.Toggle();
    isOpen, active := nav.isOpen, nav.menuActive;
  }

  /** Closing twice leaves the menu as closing once does. */
  method CloseIsIdempotent(nav: MobileNav)
    modifies nav
    ensures !nav.isOpen && !nav.menuActive && nav.Valid()
  {
    nav.Close();
    var onceOpen, onceActive := nav.isOpen, nav.menuActive;
    nav.Close();
    assert nav.isOpen == onceOpen && nav.menuActive == onceActive;
  }

  /** Toggling twice brings the menu back to where it was. */
  method ToggleTwiceRestores(nav: MobileNav)
    modifies nav
    ensures nav.isOpen == old(nav.isOpen) && nav.menuActive == old(nav.menuActive)
  {
    nav.Toggle();
    nav.Toggle();
  }
}
