/** The mobile navigation menu: a panel and its toggle button, each of which
    may be missing from the markup and each carrying an `active` class. */
module Menu {
  import opened Wrappers

  /** `Some(active)` for an element the markup has, `None` for a missing one. */
  datatype MenuState = MenuState(panel: Option<bool>, button: Option<bool>)

  /** Panel and button agree whenever both exist. */
  predicate InSync(m: MenuState) {
    m.panel.Some? && m.button.Some? ==> m.panel.value == m.button.value
  }

  /** A click on the toggle button flips `active` on the panel and then on the
      button. The listener sits on the button, so without one there is no click;
      without a panel the handler fails on its first statement and nothing changes. */
  function ToggleMenu(m: MenuState): (r: MenuState)
    ensures r.panel.Some? == m.panel.Some? && r.button.Some? == m.button.Some?
    ensures m.panel.Some? && m.button.Some? ==>
              r.panel.value == !m.panel.value && r.button.value == !m.button.value
    ensures !(m.panel.Some? && m.button.Some?) ==> r == m
  {
    match (m.panel, m.button)
    case (Some(p), Some(b)) => MenuState(Some(!p), Some(!b))
    case _ => m
  }

  /** Closing after in-page navigation: `active` is removed from whichever of
      the two elements exists. */
  function CloseMenu(m: MenuState): (r: MenuState)
    ensures r.panel.Some? == m.panel.Some? && r.button.Some? == m.button.Some?
    ensures r.panel.Some? ==> !r.panel.value
    ensures r.button.Some? ==> !r.button.value
  {
    MenuState(if m.panel.Some? then Some(false) else None,
              if m.button.Some? then Some(false) else None)
  }

  /** Toggling is an involution. */
  lemma ToggleTwiceRestores(m: MenuState)
    ensures ToggleMenu(ToggleMenu(m)) == m
  {
  }

  /** Toggling and closing keep panel and button in step. */
  lemma OperationsKeepInSync(m: MenuState)
    requires InSync(m)
    ensures InSync(ToggleMenu(m))
    ensures InSync(CloseMenu(m))
  {
  }

  /** Closing twice is closing once, and a closed menu is in step. */
  lemma CloseIdempotent(m: MenuState)
    ensures CloseMenu(CloseMenu(m)) == CloseMenu(m)
    ensures InSync(CloseMenu(m))
  {
  }
}
