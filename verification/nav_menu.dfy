/**
 * The mobile navigation menu as a value: the `#mobile-menu-btn` button and the
 * `#nav-menu` list, either of which may be missing from the page.
 */
module NavMenu {

  /**
   * `buttonActive` is the button's `active` class, `open` the menu's
   * `mobile-open` class; `ariaExpanded` sits on the button, `ariaHidden` on the menu.
   */
  datatype Nav = Nav(
    hasButton: bool, hasMenu: bool,
    buttonActive: bool, open: bool,
    ariaExpanded: bool, ariaHidden: bool)

  /** Both elements exist, so `toggleMobileMenu` acts. */
  predicate Wired(n: Nav) {
    n.hasButton && n.hasMenu
  }

  /** The button and the ARIA attributes all agree with the menu's `mobile-open` class. */
  predicate Consistent(n: Nav) {
    n.buttonActive == n.open && n.ariaExpanded == n.open && n.ariaHidden == !n.open
  }

  /**
   * `toggleMobileMenu`: when both elements exist, the button's `active` class and
   * the menu's `mobile-open` class each flip, and the ARIA attributes are derived
   * from the menu's new state; otherwise nothing changes.
   */
  function Toggle(n: Nav): (r: Nav)
    ensures r.hasButton == n.hasButton && r.hasMenu == n.hasMenu
    ensures Wired(n) ==> r.open == !n.open && r.buttonActive == !n.buttonActive
    ensures Wired(n) ==> r.ariaExpanded == r.open && r.ariaHidden == !r.open
    ensures !Wired(n) ==> r == n
  {
    if Wired(n) then
      var open := !n.open;
      n.(buttonActive := !n.buttonActive, open := open, ariaExpanded := open, ariaHidden := !open)
    else n
  }

  /**
   * The Escape handler's menu step: toggle only if the menu exists and is open.
   * The toggle needs the button too, so an open menu without its button stays open.
   */
  function Escape(n: Nav): (r: Nav)
    ensures r.hasButton == n.hasButton && r.hasMenu == n.hasMenu
    ensures Wired(n) ==> !r.open
    ensures Wired(n) && n.open ==> r == Toggle(n)
    ensures !Wired(n) ==> r == n
    ensures !n.open ==> r == n
    ensures Wired(n) && Consistent(n) ==> Consistent(r)
  {
    if n.hasMenu && n.open then Toggle(n) else n
  }

  /** Toggling keeps a consistent menu consistent. */
  lemma ToggleKeepsConsistent(n: Nav)
    requires Consistent(n)
    ensures Consistent(Toggle(n))
  {
  }

  /**
   * Two toggles in a row leave the menu as it was whenever its ARIA attributes
   * agree with it; the button class flips twice, so it need not agree.
   */
  lemma ToggleTwiceIsIdentity(n: Nav)
    requires n.ariaExpanded == n.open && n.ariaHidden == !n.open
    ensures Toggle(Toggle(n)) == n
  {
  }

  /** Pressing Escape twice is the same as pressing it once. */
  lemma EscapeIdempotent(n: Nav)
    ensures Escape(Escape(n)) == Escape(n)
  {
  }
}
