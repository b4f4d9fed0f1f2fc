/** The navbar's background tint, driven by every scroll event. */
module Navbar {
  import opened Wrappers

  /** The navbar's `offsetHeight` and whether it carries the tint class. */
  datatype Navbar = Navbar(height: nat, tinted: bool)

  /** A scroll event at `scrollY`: the tint is on exactly below the very top.
      A page without a navbar keeps none (the handler fails before any effect). */
  function TintNavbar(navbar: Option<Navbar>, scrollY: int): (r: Option<Navbar>)
    ensures r.Some? <==> navbar.Some?
    ensures r.Some? ==> r.value.height == navbar.value.height
    ensures r.Some? ==> (r.value.tinted <==> scrollY > 0)
  {
    match navbar
    case None => None
    case Some(n) => Some(n.(tinted := scrollY > 0))
  }

  /** The tint depends on the latest scroll position only. */
  lemma TintForgetsHistory(navbar: Option<Navbar>, y1: int, y2: int)
    ensures TintNavbar(TintNavbar(navbar, y1), y2) == TintNavbar(navbar, y2)
  {
  }
}
