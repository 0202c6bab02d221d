/**
  The mobile menu button of main.js (`toggleMobileMenu`): each click reads
  the button's `aria-expanded` attribute, writes back the opposite, and
  toggles the navigation's "header__nav--active" class.
 */
module MobileMenu {

  datatype Option<T> = None | Some(value: T)

  /** The button's expanded state as the handler reads it: only the
      attribute text "true" counts, and a missing attribute is false. */
  predicate IsExpanded(attribute: Option<string>) {
    attribute == Some("true")
  }

  /** The attribute text `setAttribute` stores for a boolean. */
  function BoolText(b: bool): (t: string)
    ensures t == "true" <==> b
  {
    if b then "true" else "false"
  }

  /** The button's attribute and the navigation's class flag. */
  datatype MenuState = MenuState(ariaExpanded: Option<string>, navActive: bool)

  /** The state after one click. */
  function Click(s: MenuState): (r: MenuState)
    ensures IsExpanded(r.ariaExpanded) == !IsExpanded(s.ariaExpanded)
    ensures r.ariaExpanded.Some? && r.navActive == !s.navActive
  {
    MenuState(Some(BoolText(!IsExpanded(s.ariaExpanded))), !s.navActive)
  }

  /** Two clicks restore the expanded state and the navigation class; the
      attribute itself comes back as "true" or "false" even when it was
      missing or held some other text. */
  lemma ClickTwiceRestores(s: MenuState)
    ensures IsExpanded(Click(Click(s)).ariaExpanded) == IsExpanded(s.ariaExpanded)
    ensures Click(Click(s)).navActive == s.navActive
    ensures Click(Click(s)).ariaExpanded == Some(BoolText(IsExpanded(s.ariaExpanded)))
  {
  }

  /** A button without the attribute opens the menu on the first click. */
  lemma MissingAttributeOpens(navActive: bool)
    ensures Click(MenuState(None, navActive)) == MenuState(Some("true"), !navActive)
  {
  }

  /** The menu button and the navigation it shows and hides. */
  class Menu {
    var ariaExpanded: Option<string>   // the button's aria-expanded attribute
    var navActive: bool                // the nav has class "header__nav--active"

    constructor (ariaExpanded: Option<string>, navActive: bool)
      ensures this.ariaExpanded == ariaExpanded && this.navActive == navActive
    {
      this.ariaExpanded := ariaExpanded;
      this.navActive := navActive;
    }

    function State(): MenuState
      reads this
    {
      MenuState(ariaExpanded, navActive)
    }

    /** The click handler. */
    method OnClick()
      modifies this
      ensures State() == Click(old(State()))
    {
      var expanded := ariaExpanded == Some("true");
      ariaExpanded := Some(if !expanded then "true" else "false");
      navActive := !navActive;
    }
  }
}
