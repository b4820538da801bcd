/**
 * `toggleMobileMenu`: flips the class `show` on the navigation list, when
 * the page has one.
 */
module MobileMenu {

  const ShowClass := "show"

  /** `classList.toggle(token)` on a list of class tokens: the token's
      presence flips and every other token stays as it was. */
  function Toggled(classes: set<string>, token: string): (r: set<string>)
    ensures token in r <==> token !in classes
    ensures r - {token} == classes - {token}
  {
    if token in classes then classes - {token} else classes + {token}
  }

  /** Toggling the same token twice restores the original classes. */
  lemma ToggleTwiceRestores(classes: set<string>, token: string)
    ensures Toggled(Toggled(classes, token), token) == classes
  {
  }

  /** The element `nav ul` with its class tokens. */
  class NavMenu {
    var classes: set<string>

    constructor (classes: set<string>)
      ensures this.classes == classes
    {
      this.classes := classes;
    }
  }

  /** `toggleMobileMenu()`: `menu` is what `document.querySelector('nav ul')`
      found; with no such element nothing happens. */
  method ToggleMobileMenu(menu: NavMenu?)
    modifies menu
    ensures menu != null ==> menu.classes == Toggled(old(menu.classes), ShowClass)
  {
    if menu != null {
      menu.classes := Toggled(menu.classes, ShowClass);
    }
  }
}
