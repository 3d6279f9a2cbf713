/** The mobile (hamburger) menu (script.js, lines 133-201). Its state is the
    `active` class of `.nav-links`, the `active` class of
    `.mobile-menu-toggle` and the toggle's `aria-expanded` attribute. */
module MobileMenu {

  /** The argument of `toggleMenu`: left out, or a boolean. */
  datatype ToggleArg = Undefined | Given(open: bool)

  /** Where a document click landed, relative to the three elements the
      outside-click handler asks about (`Node.contains`). */
  datatype ClickTarget = ClickTarget(inNavLinks: bool, inToggle: bool, inHeader: bool)

  /** The `aria-expanded` value that `openMenu` / `closeMenu` write. */
  function AriaValue(open: bool): (value: string) {
    if open then "true" else "false"
  }

  class Menu {
    var navActive: bool
    var toggleActive: bool
    var ariaExpanded: string

    /** The three pieces of state agree. */
    ghost predicate Consistent()
      reads this
    {
      toggleActive == navActive && ariaExpanded == AriaValue(navActive)
    }

    /** The initial state is whatever the page markup supplies. */
    constructor (nav: bool, toggle: bool, aria: string)
      ensures navActive == nav && toggleActive == toggle && ariaExpanded == aria
    {
      navActive, toggleActive, ariaExpanded := nav, toggle, aria;
    }

    method OpenMenu()
      modifies this
      ensures navActive && Consistent()
    {
      navActive := true;
      toggleActive := true;
      ariaExpanded := "true";
    }

    method CloseMenu()
      modifies this
      ensures !navActive && Consistent()
    {
      navActive := false;
      toggleActive := false;
      ariaExpanded := "false";
    }

    /** `toggleMenu(open)`: with no argument flip the panel's state, otherwise
        set it to `open`. Run by a click on the toggle control. */
    method ToggleMenu(open: ToggleArg)
      modifies this
      ensures Consistent()
      ensures navActive == if open.Undefined? then !old(navActive) else open.open
    {
      var isOpen := navActive;
      if open.Undefined? {
        if isOpen {
          CloseMenu();
        } else {
          OpenMenu();
        }
      } else if open.open {
        OpenMenu();
      } else {
        CloseMenu();
      }
    }

    /** The `keydown` handler: Escape closes an open menu; any other key, or
        Escape on a closed menu, changes nothing. */
    method OnKeydown(key: string)
      modifies this
      ensures old(navActive) && key == "Escape" ==> !navActive && Consistent()
      ensures !(old(navActive) && key == "Escape") ==>
                navActive == old(navActive) && toggleActive == old(toggleActive) &&
                ariaExpanded == old(ariaExpanded)
      ensures old(Consistent()) ==> Consistent()
    {
      if key == "Escape" && navActive {
        CloseMenu();
      }
    }

    /** The document `click` handler: an open menu closes when the click
        landed outside the panel, the toggle and the header; otherwise
        nothing changes. */
    method OnDocumentClick(target: ClickTarget)
      modifies this
      ensures var outside := !target.inNavLinks && !target.inToggle && !target.inHeader;
              if old(navActive) && outside then !navActive && Consistent()
              else navActive == old(navActive) && toggleActive == old(toggleActive) &&
                   ariaExpanded == old(ariaExpanded)
      ensures old(Consistent()) ==> Consistent()
    {
      if navActive && !target.inNavLinks && !target.inToggle && !target.inHeader {
        CloseMenu();
      }
    }
  }

  /** What a caller can rely on: toggling alternates, Escape closes an open
      menu and is then a no-op, an inside click changes nothing, and an
      outside click closes. */
  method MenuScenario()
  {
    var m := new Menu(false, false, "false");
    m.ToggleMenu(Undefined);
    assert m.navActive && m.ariaExpanded == "true";
    m.OnDocumentClick(ClickTarget(true, false, true));
    assert m.navActive && m.Consistent();
    m.OnKeydown("Escape");
    assert !m.navActive && m.Consistent();
    m.OnKeydown("Escape");
    assert !m.navActive && m.toggleActive == false;
    m.ToggleMenu(Given(true));
    m.OnDocumentClick(ClickTarget(false, false, false));
    assert !m.navActive && m.ariaExpanded == "false";
  }
}
