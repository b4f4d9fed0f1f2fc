/** The whole page as one immutable state, the start-up of the script, and
    every event it reacts to as a pure transition. */
module Page {
  import opened Wrappers
  import opened Dom
  import Theme
  import Menu
  import ActiveLink
  import SmoothScroll
  import Throttle
  import Reveal
  import Navbar
  import Overlay

  /** What the markup provides before the script runs. `elements` are all
      elements with an identifier, in document order (the possible link
      targets); `sections` are the sections and headers with one; `links` are
      the navbar's fragment links, whose hrefs start with "#" (the only anchors
      the script tracks). */
  datatype Markup = Markup(
    dataTheme: string,
    themeToggle: Option<Theme.ToggleControl>,
    menu: Menu.MenuState,
    sections: seq<Element>,
    elements: seq<Element>,
    links: seq<Link>,
    observed: seq<Reveal.Observed>,
    navbar: Option<Navbar.Navbar>,
    hasOverlay: bool)

  /** Which listeners start-up attached: the theme toggle's, the menu
      button's, and the group set up after the menu button (reveal watcher,
      link clicks, throttled highlighter). */
  datatype Handlers = Handlers(themeClick: bool, menuClick: bool, enhancements: bool)

  datatype Page = Page(
    handlers: Handlers,
    theme: Theme.ThemeState,
    menu: Menu.MenuState,
    sections: seq<Element>,
    elements: seq<Element>,
    links: seq<Link>,
    observed: seq<Reveal.Observed>,
    navbar: Option<Navbar.Navbar>,
    overlay: Option<Overlay.Overlay>,
    scrollY: int,
    scrollRequest: Option<nat>,
    throttle: Throttle.Throttle)

  /** Everything the browser can deliver to the page. */
  datatype Event =
    | ThemeToggleClick
    | SystemThemeChange(prefersDark: bool)
    | MenuToggleClick
    | LinkClick(link: nat)
    | Scroll(scrollY: int)
    | AnimationFrame
    | Intersection(entries: seq<Reveal.Entry>)
    | Load
    | AnimationEnd(name: string)

  /** Listener registration as the script is written: the menu button's
      listener is attached without checking that the button exists, so with
      no button start-up stops there and nothing after it is attached. */
  function RegisteredAsWritten(m: Markup): (h: Handlers)
    ensures h.themeClick <==> m.themeToggle.Some?
    ensures h.menuClick <==> m.menu.button.Some?
    ensures h.enhancements <==> m.menu.button.Some?
  {
    Handlers(m.themeToggle.Some?, m.menu.button.Some?, m.menu.button.Some?)
  }

  /** Listener registration with a missing menu button skipped, as every other
      optional element of the page is. */
  function Registered(m: Markup): (h: Handlers)
    ensures h.themeClick <==> m.themeToggle.Some?
    ensures h.menuClick <==> m.menu.button.Some?
    ensures h.enhancements
  {
    Handlers(m.themeToggle.Some?, m.menu.button.Some?, true)
  }

  /** The page after start-up with the given listeners attached. */
  function InitWith(h: Handlers, m: Markup, stored: Option<string>, systemDark: bool, scrollY: int): Page {
    Page(
      h,
      Theme.Start(stored, systemDark, m.dataTheme, m.themeToggle),
      m.menu,
      m.sections,
      m.elements,
      if h.enhancements then ActiveLink.UpdateActiveLink(m.links, m.sections, scrollY) else m.links,
      if h.enhancements then Reveal.ObserveAll(m.observed) else m.observed,
      m.navbar,
      if m.hasOverlay then Some(Overlay.Overlay(false, false)) else None,
      scrollY,
      None,
      Throttle.Idle)
  }

  /** Start-up exactly as written: the theme is always resolved, but without a
      menu button neither the highlighter's first run nor reveal marking happens. */
  function InitAsWritten(m: Markup, stored: Option<string>, systemDark: bool, scrollY: int): (p: Page)
    ensures Inv(p)
    ensures Theme.IsValidStored(stored) ==> p.theme.dataTheme == stored.value
    ensures !Theme.IsValidStored(stored) ==> (p.theme.dataTheme == Theme.Dark <==> systemDark)
    ensures p.handlers == RegisteredAsWritten(m)
    ensures p.handlers.enhancements <==> m.menu.button.Some?
    ensures p.theme.stored == stored && p.theme.systemDark == systemDark
    ensures p.theme.toggle.Some? <==> m.themeToggle.Some?
    ensures p.menu == m.menu && p.navbar == m.navbar
    ensures p.sections == m.sections && p.elements == m.elements
    ensures p.overlay == (if m.hasOverlay then Some(Overlay.Overlay(false, false)) else None)
    ensures p.scrollY == scrollY && p.scrollRequest.None? && p.throttle == Throttle.Idle
    ensures m.menu.button.None? ==> p.links == m.links && p.observed == m.observed
    ensures m.menu.button.Some? ==> p == Init(m, stored, systemDark, scrollY)
  {
    InitWith(RegisteredAsWritten(m), m, stored, systemDark, scrollY)
  }

  /** The corrected start-up, which the model runs: a missing menu button skips
      only its own listener. */
  function Init(m: Markup, stored: Option<string>, systemDark: bool, scrollY: int): (p: Page)
    ensures Inv(p)
    ensures p.handlers == Registered(m)
    ensures p.handlers.enhancements
    ensures p.theme.stored == stored && p.theme.systemDark == systemDark
    ensures p.theme.toggle.Some? <==> m.themeToggle.Some?
    ensures Theme.IsValidStored(stored) ==> p.theme.dataTheme == stored.value
    ensures !Theme.IsValidStored(stored) ==> (p.theme.dataTheme == Theme.Dark <==> systemDark)
    ensures |p.links| == |m.links|
    ensures forall i :: 0 <= i < |p.links| ==>
              (p.links[i].active <==> m.links[i].href == Anchor(ActiveLink.CurrentSection(m.sections, scrollY)))
    ensures forall i :: 0 <= i < |p.links| ==> p.links[i].href == m.links[i].href
    ensures |p.observed| == |m.observed|
    ensures forall i :: 0 <= i < |p.observed| ==>
              p.observed[i].marked && p.observed[i].revealed == m.observed[i].revealed
    ensures p.menu == m.menu && p.navbar == m.navbar
    ensures p.sections == m.sections && p.elements == m.elements
    ensures p.overlay == (if m.hasOverlay then Some(Overlay.Overlay(false, false)) else None)
    ensures p.scrollY == scrollY && p.scrollRequest.None? && p.throttle == Throttle.Idle
  {
    InitWith(Registered(m), m, stored, systemDark, scrollY)
  }

  /** What a page keeps between events. */
  predicate Inv(p: Page) {
    && Theme.Inv(p.theme)
    && (p.handlers.themeClick ==> p.theme.toggle.Some?)
    && Throttle.Valid(p.throttle)
    && (!p.handlers.enhancements ==> p.throttle == Throttle.Idle)
    && Overlay.Valid(p.overlay)
  }

  /** Events the browser can actually deliver: clicks on existing links, and
      watcher reports about observed elements. */
  predicate Deliverable(p: Page, e: Event) {
    match e
    case LinkClick(i) => i < |p.links|
    case Intersection(entries) => Reveal.EntriesFit(entries, |p.observed|)
    case _ => true
  }

  /** The navbar's height as read by the link-click handler. */
  function NavbarOffsetHeight(p: Page): Option<nat> {
    match p.navbar
    case None => None
    case Some(n) => Some(n.height)
  }

  /** The page's reaction to one event. The system-change listener and the
      navbar's scroll listener are always attached; clicks on the theme toggle
      and the menu button reach the page only through their listeners; link
      clicks, the throttle and the reveal watcher only when the enhancements
      were set up. */
  function Step(p: Page, e: Event): (r: Page)
    requires Deliverable(p, e)
    ensures e.ThemeToggleClick? && !p.handlers.themeClick ==> r == p
    ensures e.MenuToggleClick? && !p.handlers.menuClick ==> r == p
    ensures e.SystemThemeChange? ==> r == p.(theme := Theme.SystemChange(p.theme, e.prefersDark))
    ensures e.LinkClick? && !p.handlers.enhancements ==> r == p
    ensures e.Intersection? && !p.handlers.enhancements ==> r == p
    ensures e.Scroll? ==> r.scrollY == e.scrollY && r.navbar == Navbar.TintNavbar(p.navbar, e.scrollY)
    ensures e.Scroll? && !p.handlers.enhancements ==> r.throttle == p.throttle
    ensures e.Scroll? && p.handlers.enhancements ==> r.throttle == Throttle.OnScroll(p.throttle)
    ensures e.Scroll? ==> r.links == p.links
  {
    match e
    case ThemeToggleClick =>
      if p.handlers.themeClick then p.(theme := Theme.ClickToggle(p.theme)) else p
    case SystemThemeChange(d) =>
      p.(theme := Theme.SystemChange(p.theme, d))
    case MenuToggleClick =>
      if p.handlers.menuClick then p.(menu := Menu.ToggleMenu(p.menu)) else p
    case LinkClick(i) =>
      if !p.handlers.enhancements then p
      else
        var o := SmoothScroll.Navigate(p.elements, p.links[i].href, NavbarOffsetHeight(p), p.menu);
        p.(menu := o.menu, scrollRequest := if o.scrollTo.Some? then o.scrollTo else p.scrollRequest)
    case Scroll(y) =>
      p.(scrollY := y,
         navbar := Navbar.TintNavbar(p.navbar, y),
         throttle := if p.handlers.enhancements then Throttle.OnScroll(p.throttle) else p.throttle)
    case AnimationFrame =>
      var (t, runs) := Throttle.OnFrame(p.throttle);
      p.(links := if runs > 0 then ActiveLink.UpdateActiveLink(p.links, p.sections, p.scrollY) else p.links,
         throttle := t)
    case Intersection(entries) =>
      if p.handlers.enhancements then p.(observed := Reveal.HandleEntries(p.observed, entries)) else p
    case Load =>
      p.(overlay := Overlay.OnLoad(p.overlay))
    case AnimationEnd(name) =>
      p.(overlay := Overlay.OnAnimationEnd(p.overlay, name))
  }

  /** Every event keeps the invariant, and leaves the structure of the page
      (which elements and links exist) alone. */
  lemma StepPreservesInv(p: Page, e: Event)
    requires Inv(p) && Deliverable(p, e)
    ensures Inv(Step(p, e))
    ensures Step(p, e).handlers == p.handlers
    ensures |Step(p, e).links| == |p.links| && |Step(p, e).observed| == |p.observed|
    ensures Step(p, e).sections == p.sections && Step(p, e).elements == p.elements
  {
    match e
    case ThemeToggleClick =>
      Theme.OperationsPreserveInv(p.theme, false);
    case SystemThemeChange(d) =>
      Theme.OperationsPreserveInv(p.theme, d);
    case AnimationEnd(name) =>
      Overlay.EventsKeepValid(p.overlay, name);
    case Load =>
      Overlay.EventsKeepValid(p.overlay, "");
    case _ =>
  }

  /** A sequence of events, each deliverable when it arrives. */
  predicate DeliverableRun(p: Page, es: seq<Event>)
    requires Inv(p)
    decreases |es|
  {
    |es| == 0 || (Deliverable(p, es[0]) && (StepPreservesInv(p, es[0]); DeliverableRun(Step(p, es[0]), es[1..])))
  }

  function Run(p: Page, es: seq<Event>): (q: Page)
    requires Inv(p) && DeliverableRun(p, es)
    ensures Inv(q)
    ensures q.handlers == p.handlers && |q.links| == |p.links| && |q.observed| == |p.observed|
    ensures q.sections == p.sections && q.elements == p.elements
    decreases |es|
  {
    if |es| == 0 then p
    else
      StepPreservesInv(p, es[0]);
      Run(Step(p, es[0]), es[1..])
  }

  /** After start-up and any run of events the root holds "dark" or "light"
      and the theme toggle agrees with it. */
  lemma ThemeStaysLegal(m: Markup, stored: Option<string>, systemDark: bool,
                           scrollY: int, es: seq<Event>)
    requires DeliverableRun(Init(m, stored, systemDark, scrollY), es)
    ensures var q := Run(Init(m, stored, systemDark, scrollY), es);
            && Theme.IsTheme(q.theme.dataTheme)
            && (q.theme.toggle.Some? ==> Theme.Synced(q.theme.toggle.value, q.theme.dataTheme))
  {
  }

  /** A toggle click makes storage and the root agree on the opposite theme. */
  lemma ThemeClickPersists(p: Page)
    requires Inv(p) && p.handlers.themeClick
    ensures var q := Step(p, ThemeToggleClick);
            && q.theme.stored == Some(q.theme.dataTheme)
            && (q.theme.dataTheme == Theme.Dark <==> p.theme.dataTheme == Theme.Light)
            && Theme.Synced(q.theme.toggle.value, q.theme.dataTheme)
  {
  }

  /** Once a preference is stored, a system change leaves everything visible as it was. */
  lemma StoredPreferenceWins(p: Page, d: bool)
    requires Theme.HasOverride(p.theme.stored)
    ensures Step(p, SystemThemeChange(d)).theme.dataTheme == p.theme.dataTheme
    ensures Step(p, SystemThemeChange(d)).theme.toggle == p.theme.toggle
  {
  }

  /** Without a stored preference a system change to dark applies dark at once. */
  lemma SystemDarkAppliesWithoutPreference(p: Page)
    requires !Theme.HasOverride(p.theme.stored)
    ensures Step(p, SystemThemeChange(true)).theme.dataTheme == Theme.Dark
  {
  }

  /** A click on a link whose target is missing changes nothing at all. */
  lemma LinkWithoutTargetIsInert(p: Page, i: nat)
    requires i < |p.links|
    requires SmoothScroll.FindTarget(p.elements, p.links[i].href).None?
    ensures Step(p, LinkClick(i)) == p
  {
  }

  /** A frame with a pending callback leaves exactly the links of the current
      section active. */
  lemma FrameHighlightsCurrentSection(p: Page)
    requires Inv(p) && p.throttle.ticking
    ensures var q := Step(p, AnimationFrame);
            && !q.throttle.ticking
            && forall i :: 0 <= i < |q.links| ==>
                 (q.links[i].active <==>
                    p.links[i].href == Anchor(ActiveLink.CurrentSection(p.sections, p.scrollY)))
  {
  }

  /** The overlay disappears only on the end of its own fade-out animation,
      and only after the load event started that fade-out. */
  lemma OverlayRemovedOnlyByFadeOut(p: Page, e: Event)
    requires Inv(p) && Deliverable(p, e) && p.overlay.Some?
    ensures Step(p, e).overlay.None? ==>
              e == AnimationEnd(Overlay.FadeOutAnimation) && p.overlay.value.hide
  {
  }

  /** A page whose markup lacks the mobile menu button, with one section at the
      top and one link pointing at it. */
  function NoMenuButtonPage(): Markup {
    Markup(Theme.Light, None, Menu.MenuState(Some(false), None),
           [Element("home", 0)], [Element("home", 0)], [Link("#home", false)],
           [Reveal.Observed(false, false)], None, false)
  }

  /** As written, a missing menu button silently disables the rest: the link of
      the section in view is never highlighted, not even after scrolling, and
      a click on it gets no navbar-aware scroll and closes no menu (only the
      browser's own jump to the fragment, which is not modelled, remains). */
  /** Without the enhancements no run of events, however long, ever changes a
      link's highlight or an observed element. */
  lemma {:induction false} AsWrittenNeverTouchesLinks(p: Page, es: seq<Event>)
    requires Inv(p) && !p.handlers.enhancements && DeliverableRun(p, es)
    ensures Run(p, es).links == p.links && Run(p, es).observed == p.observed
    decreases |es|
  {
    if |es| > 0 {
      StepPreservesInv(p, es[0]);
      AsWrittenNeverTouchesLinks(Step(p, es[0]), es[1..]);
    }
  }

  /** On markup without a menu button, the written start-up followed by any run
      of events leaves the links and observed elements as the markup has them. */
  lemma AsWrittenWithoutButtonKeepsMarkup(m: Markup, stored: Option<string>, systemDark: bool,
                                          scrollY: int, es: seq<Event>)
    requires m.menu.button.None?
    requires DeliverableRun(InitAsWritten(m, stored, systemDark, scrollY), es)
    ensures Run(InitAsWritten(m, stored, systemDark, scrollY), es).links == m.links
    ensures Run(InitAsWritten(m, stored, systemDark, scrollY), es).observed == m.observed
  {
    AsWrittenNeverTouchesLinks(InitAsWritten(m, stored, systemDark, scrollY), es);
  }

  lemma MissingMenuButtonDisablesPage()
    ensures var p := InitAsWritten(NoMenuButtonPage(), None, false, 0);
            && !p.links[0].active
            && !Run(p, [Scroll(10), AnimationFrame]).links[0].active
            && Step(p, LinkClick(0)) == p
            && !p.observed[0].marked
  {
    var p := InitAsWritten(NoMenuButtonPage(), None, false, 0);
    assert Step(p, Scroll(10)).links == p.links;
  }

  /** With the missing button tolerated, the same page highlights its link and
      the link click scrolls to the section. */
  lemma MissingMenuButtonTolerated()
    ensures var p := Init(NoMenuButtonPage(), None, false, 0);
            && p.links[0].active
            && Step(p, LinkClick(0)).scrollRequest == Some(0)
            && p.observed[0].marked
  {
    ActiveLink.CurrentSectionIsLastReached([Element("home", 0)], 0, 0);
  }

  /** For every markup, the tolerant start-up attaches the reveal watcher, the
      link clicks and the highlighter, whereas the written one attaches them
      only when the menu button exists. */
  lemma RegistrationDiffersOnlyWithoutButton(m: Markup)
    ensures Registered(m).enhancements
    ensures RegisteredAsWritten(m).enhancements <==> m.menu.button.Some?
    ensures m.menu.button.Some? ==> Registered(m) == RegisteredAsWritten(m)
  {
  }
}
