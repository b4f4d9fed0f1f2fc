/** In-page navigation: a click on a fragment link scrolls to its target,
    leaving room for the fixed navbar, and closes the mobile menu. */
module SmoothScroll {
  import opened Wrappers
  import opened Dom
  import Menu

  /** Extra clearance, in pixels, kept below the navbar. */
  const NavOffset := 20

  /** The navbar's height as the script reads it: zero when there is no navbar. */
  function NavbarHeight(navbar: Option<nat>): nat {
    navbar.GetOr(0)
  }

  /** The scroll destination for a target at `offsetTop`: the offset minus the
      navbar height and the clearance, but never above the top of the page. */
  function ScrollTarget(offsetTop: int, navbar: Option<nat>): (top: nat)
    ensures top >= offsetTop - NavbarHeight(navbar) - NavOffset
    ensures top == 0 || top == offsetTop - NavbarHeight(navbar) - NavOffset
  {
    var t := offsetTop - NavbarHeight(navbar) - NavOffset;
    if t > 0 then t else 0
  }

  /** Lookup of the link's target: the first element in document order whose
      anchor is exactly `href`. The bare fragment "#" is not a valid selector,
      so it finds nothing. */
  function FindTarget(elements: seq<Element>, href: string): (k: Option<nat>)
    ensures href == "#" ==> k.None?
    ensures k.Some? ==> k.value < |elements| && Anchor(elements[k.value].id) == href
    ensures k.Some? ==> forall j :: 0 <= j < k.value ==> Anchor(elements[j].id) != href
    ensures k.None? && href != "#" ==> forall j :: 0 <= j < |elements| ==> Anchor(elements[j].id) != href
  {
    if href == "#" then None else FirstWithAnchor(elements, href, 0)
  }

  function FirstWithAnchor(elements: seq<Element>, href: string, from: nat): (k: Option<nat>)
    requires from <= |elements|
    requires forall j :: 0 <= j < from ==> Anchor(elements[j].id) != href
    ensures k.Some? ==> from <= k.value < |elements| && Anchor(elements[k.value].id) == href
    ensures k.Some? ==> forall j :: 0 <= j < k.value ==> Anchor(elements[j].id) != href
    ensures k.None? ==> forall j :: 0 <= j < |elements| ==> Anchor(elements[j].id) != href
    decreases |elements| - from
  {
    if from == |elements| then None
    else if Anchor(elements[from].id) == href then Some(from)
    else FirstWithAnchor(elements, href, from + 1)
  }

  /** What a click on a link does: where (if anywhere) it scrolls, and the menu afterwards. */
  datatype Outcome = Outcome(scrollTo: Option<nat>, menu: Menu.MenuState)

  /** A click on the link with `href`: with a target, scroll to it and close the
      menu; without one, neither scroll nor touch the menu. */
  function Navigate(elements: seq<Element>, href: string, navbar: Option<nat>,
                    menu: Menu.MenuState): (o: Outcome)
    ensures o.scrollTo.None? <==> FindTarget(elements, href).None?
    ensures o.scrollTo.None? ==> o.menu == menu
    ensures o.scrollTo.Some? ==>
              var k := FindTarget(elements, href).value;
              && Anchor(elements[k].id) == href
              && o.scrollTo.value == ScrollTarget(elements[k].offsetTop, navbar)
              && o.menu == Menu.CloseMenu(menu)
  {
    match FindTarget(elements, href)
    case None => Outcome(None, menu)
    case Some(k) => Outcome(Some(ScrollTarget(elements[k].offsetTop, navbar)), Menu.CloseMenu(menu))
  }

  /** The destination is the unclamped one whenever that is not negative. */
  lemma ScrollTargetIsMax(offsetTop: int, navbar: Option<nat>)
    ensures offsetTop - NavbarHeight(navbar) - NavOffset >= 0 ==>
              ScrollTarget(offsetTop, navbar) == offsetTop - NavbarHeight(navbar) - NavOffset
    ensures offsetTop - NavbarHeight(navbar) - NavOffset < 0 ==> ScrollTarget(offsetTop, navbar) == 0
  {
  }

  /** A target at 500 below an 80-pixel navbar is reached at 400; one at 50 at 0. */
  lemma ScrollTargetExamples()
    ensures ScrollTarget(500, Some(80)) == 400
    ensures ScrollTarget(50, Some(80)) == 0
    ensures ScrollTarget(50, None) == 30
  {
  }
}
