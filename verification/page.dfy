/**
 * The page state that the FAQ, navigation and Escape handlers of script.js
 * update in place: the document's FAQ items and the mobile menu.
 */
module PageHandlers {
  import Faq
  import NavMenu

  class Page {
    /** Every `.faq-item` of the document, in document order. */
    const items: array<Faq.Item>

    const hasButton: bool
    const hasMenu: bool
    var buttonActive: bool
    var menuOpen: bool
    var buttonAriaExpanded: bool
    var menuAriaHidden: bool

    /** The menu's state as a value. */
    function Nav(): NavMenu.Nav
      reads this
    {
      NavMenu.Nav(hasButton, hasMenu, buttonActive, menuOpen, buttonAriaExpanded, menuAriaHidden)
    }

    constructor (faq: seq<Faq.Item>, nav: NavMenu.Nav)
      ensures fresh(items) && items[..] == faq && Nav() == nav
    {
      items := new Faq.Item[|faq|](i requires 0 <= i < |faq| => faq[i]);
      hasButton, hasMenu := nav.hasButton, nav.hasMenu;
      buttonActive, menuOpen := nav.buttonActive, nav.open;
      buttonAriaExpanded, menuAriaHidden := nav.ariaExpanded, nav.ariaHidden;
    }

    /** `toggleMobileMenu`. */
    method ToggleMobileMenu()
      modifies this
      ensures Nav() == NavMenu.Toggle(old(Nav()))
    {
      if hasButton && hasMenu {
        buttonActive := !buttonActive;
        menuOpen := !menuOpen;
        var isOpen := menuOpen;
        buttonAriaExpanded := isOpen;
        menuAriaHidden := !isOpen;
      }
    }

    /**
     * `toggleFAQ` on the question of item `t`: close every other open item in
     * the document, then flip `t`. The model assumes the markup puts every
     * question inside an item, so that `closest` finds one.
     */
    method ToggleFaq(t: nat)
      requires t < items.Length
      modifies items
      ensures items[..] == Faq.Toggle(old(items[..]), t)
    {
      var isActive := items[t].active;
      var i := 0;
      while i < items.Length
        invariant 0 <= i <= items.Length
        invariant forall k :: 0 <= k < i ==>
          items[k] == if k != t && old(items[k]).active then Faq.Collapse(old(items[k])) else old(items[k])
        invariant forall k :: i <= k < items.Length ==> items[k] == old(items[k])
      {
        var item := items[i];
        if item.active && i != t {
          items[i] := item.(active := false, ariaExpanded := false);
          if item.hasAnswer {
            items[i] := items[i].(answerHeightSet := false);
          }
        }
        i := i + 1;
      }
      items[t] := items[t].(active := !items[t].active);
      items[t] := items[t].(ariaExpanded := !isActive);
      if items[t].hasAnswer {
        items[t] := items[t].(answerHeightSet := !isActive);
      }
      assert items[..] == Faq.Toggle(old(items[..]), t);
    }

    /** A click on the question of item `t`. */
    method OnQuestionClick(t: nat)
      requires t < items.Length
      modifies items
      ensures items[..] == Faq.Toggle(old(items[..]), t)
    {
      ToggleFaq(t);
    }

    /**
     * A key pressed on the question of item `t`: Enter and Space run the very
     * same toggle as a click (and suppress the key's default); other keys do nothing.
     */
    method OnQuestionKeyDown(t: nat, key: string) returns (defaultPrevented: bool)
      requires t < items.Length
      modifies items
      ensures defaultPrevented <==> key == "Enter" || key == " "
      ensures items[..] == if defaultPrevented then Faq.Toggle(old(items[..]), t) else old(items[..])
    {
      defaultPrevented := key == "Enter" || key == " ";
      if defaultPrevented {
        ToggleFaq(t);
      }
    }

    /**
     * The document's Escape handler: every open FAQ item is closed, then the
     * mobile menu is toggled shut if the menu exists and is open. Other keys
     * leave the FAQ and the menu alone.
     */
    method OnDocumentKeyDown(key: string)
      modifies this, items
      ensures key == "Escape" ==> items[..] == Faq.CloseAll(old(items[..])) && Nav() == NavMenu.Escape(old(Nav()))
      ensures key != "Escape" ==> items[..] == old(items[..]) && Nav() == old(Nav())
    {
      if key == "Escape" {
        var i := 0;
        while i < items.Length
          invariant 0 <= i <= items.Length
          invariant Nav() == old(Nav())
          invariant forall k :: 0 <= k < i ==>
            items[k] == if old(items[k]).active then old(items[k]).(active := false, ariaExpanded := false) else old(items[k])
          invariant forall k :: i <= k < items.Length ==> items[k] == old(items[k])
        {
          if items[i].active {
            items[i] := items[i].(active := false);
            items[i] := items[i].(ariaExpanded := false);
          }
          i := i + 1;
        }
        assert items[..] == Faq.CloseAll(old(items[..]));
        if hasMenu && menuOpen {
          ToggleMobileMenu();
        }
      }
    }
  }
}
