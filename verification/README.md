# Portfolio page behaviour, modelled in Dafny

The portfolio's client-side script (`JS/script.js`) wires a static page to
browser events. It has these parts:

- a light/dark **theme preference**, resolved at start-up from local storage
  and the system colour scheme, applied to the root `data-theme` attribute and
  to the toggle control's `aria-pressed`/`aria-label`, flipped and persisted on
  click, and updated on system changes when no preference is stored;
- a **mobile menu** toggle;
- **reveal-on-scroll** classes driven by a viewport watcher;
- an **active-link highlighter** that picks the last section scrolled past
  (within 200 px) and marks the links pointing at it, throttled to one run per
  animation frame by a `ticking` flag;
- **smooth in-page navigation** to `max(offsetTop - navbar height - 20, 0)`,
  closing the menu;
- a **navbar tint** below the top of the page;
- an **intro overlay** that fades out on load and is removed when its own
  `introFadeOut` animation ends.

The model keeps the page as an immutable value (`Page.Page`). The script's own start-up is
`Page.InitAsWritten`. The model runs the corrected start-up `Page.Init`
(see "## Findings"), and every browser event is one pure transition `Page.Step`. Each
part of the script is its own module, with the operation and the property
that operation promises: `Theme`, `Menu`, `ActiveLink`, `SmoothScroll`,
`Throttle`, `Reveal`, `Navbar`, `Overlay`. `Dom` holds the element and link
records. `Wrappers` holds `Option`, which stands for JavaScript's `null`.

Browser input becomes parameters or state:
- local storage is `Option<string>`;
- the system colour-scheme preference is a `bool`;
- element lookups are `Option` values;
- scroll positions and offsets are integers;
- animation frames, viewport reports and animation ends are events.

Two behaviours are modelled as written even though they may surprise:
- A stored value such as `"blue"` is ignored at start-up. It still blocks every
  system-preference change, because that handler tests only whether the stored
  string is truthy (`Theme.InvalidStoredValueAsymmetry`).
- With no section reached, the current section is `""`, so a link whose `href`
  is the bare `"#"` becomes active (`ActiveLink.UpdateActiveLinkSpec`).

## Model

| member | source | states |
|---|---|---|
| Theme.ResolvePreferredTheme | JS/script.js:14-18 | the effective theme is always "dark" or "light"; it is the stored value when that is exactly "dark" or "light", and otherwise "dark" exactly when the system prefers dark |
| Theme.SyncToggleState | JS/script.js:20-30 | a toggle control stays present or absent; when present, it is pressed and offers "Switch to light mode" exactly for the dark theme, and is unpressed and offers "Switch to dark mode" otherwise |
| Theme.ApplyTheme | JS/script.js:32-35 | the root holds the applied theme, the control (if any) matches it, storage is untouched, and without a control only the root attribute changes |
| Theme.Start | JS/script.js:37-38 | after start-up the theme invariant holds and the root shows the valid stored value, or else dark exactly when the system prefers dark |
| Theme.ClickToggle | JS/script.js:41-47 | a click stores the theme it applies; that theme is the opposite of the current one (anything not "dark" counts as light); the invariant holds afterwards |
| Theme.SystemChange | JS/script.js:50-53 | with a truthy stored value a system change leaves root and control as they were; otherwise the root becomes dark exactly when the event reports dark, and the control (if present) follows; a control never appears or disappears |
| Theme.OperationsPreserveInv | JS/script.js:41-53 | click and system change keep `data-theme` in {dark, light} and the control in agreement with it |
| Theme.ClickTwiceRestores | JS/script.js:41-47 | two clicks restore the root theme and the control, and leave that theme stored |
| Theme.InvalidStoredValueAsymmetry | JS/script.js:14-53 | a non-empty invalid stored value is ignored by start-up resolution, yet blocks every later system-change update |
| Theme.BlueIsIgnoredButBlocks | JS/script.js:14-53 | with "blue" stored on a dark system, start-up applies dark, and a change to light leaves dark in place |
| Menu.ToggleMenu | JS/script.js:61-64 | with panel and button present, both `active` flags flip; without a panel the handler fails first and nothing changes |
| Menu.CloseMenu | JS/script.js:110-111 | every present menu element loses `active`, and no element appears or disappears |
| Menu.ToggleTwiceRestores | JS/script.js:61-64 | two menu clicks restore the original state |
| Menu.OperationsKeepInSync | JS/script.js:61-111 | if panel and button start equal, toggling and closing keep them equal |
| Menu.CloseIdempotent | JS/script.js:110-111 | closing twice equals closing once, and a closed menu is in step |
| SmoothScroll.ScrollTarget | JS/script.js:106-108 | the destination is never negative, never above offset − navbar height (0 without navbar) − 20, and equals either that value or 0 |
| SmoothScroll.ScrollTargetIsMax | JS/script.js:106-108 | the destination is exactly max(offset − navbar height − 20, 0) |
| SmoothScroll.ScrollTargetExamples | JS/script.js:106-108 | a target at 500 under an 80 px navbar gives 400; one at 50 gives 0; one at 50 without navbar gives 30 |
| SmoothScroll.FindTarget | JS/script.js:101-105 | the found element is the first one in document order whose "#"+id equals the href; none is found for "#" or when no element matches |
| SmoothScroll.Navigate | JS/script.js:99-115 | with a target, the page scrolls to its clamped destination and the menu closes; with none, there is no scroll and the menu is unchanged |
| ActiveLink.LastReached | JS/script.js:120-127 | the chosen section has scrollY ≥ its top − 200 and no later section does; with no choice, no section does |
| ActiveLink.CurrentSection | JS/script.js:118-127 | the current section is the id of the last section in document order with scrollY ≥ its top − 200, and "" when no section qualifies |
| ActiveLink.CurrentSectionIsLastReached | JS/script.js:117-127 | the current section's id is that of the last section in document order that is reached |
| ActiveLink.CurrentSectionWhenNoneReached | JS/script.js:118-127 | with no section reached the current section is "" |
| ActiveLink.CurrentSectionSnoc | JS/script.js:120-127 | a section added at the end becomes current if reached; otherwise the earlier choice stands |
| ActiveLink.ScanSections | JS/script.js:117-127 | the script's forward scan, which overwrites the candidate at each reached section, yields exactly the last reached section |
| ActiveLink.MarkLinks | JS/script.js:129-134 | links keep their hrefs, and a link is active exactly when its href is "#" + current section |
| ActiveLink.UpdateActiveLink | JS/script.js:117-135 | one run of the highlighter keeps every link's href and leaves active exactly the links whose href is "#" + the current section |
| ActiveLink.AtMostOneActive | JS/script.js:129-134 | when links point at distinct targets, no two are active at once |
| ActiveLink.UpdateIdempotent | JS/script.js:117-135 | running the highlighter again at the same scroll position changes nothing |
| ActiveLink.UpdateActiveLinkSpec | JS/script.js:117-135 | a link is active iff it points at the last reached section, or, when none is reached, iff its href is "#" |
| ActiveLink.ThreeSectionsExample | JS/script.js:117-127 | sections at 0, 400, 900 scrolled to 650 make the one at 400 current |
| Throttle.OnScroll | JS/script.js:139-147 | a scroll while ticking schedules nothing; otherwise it schedules one frame callback and raises the flag |
| Throttle.OnFrame | JS/script.js:141-144 | a frame runs each pending callback once and leaves the flag down with nothing pending; with a truthful flag that is at most one run |
| Throttle.BurstSchedulesAtMostOne | JS/script.js:138-147 | any number of scrolls between frames schedules at most one highlighter run, and exactly one if there was any scroll |
| Throttle.BurstThenFrameRunsOnce | JS/script.js:138-147 | a burst of scrolls from rest followed by one frame runs the highlighter exactly once and returns to rest |
| Navbar.TintNavbar | JS/script.js:152-160 | the navbar is tinted exactly when scrollY > 0; its presence and height are unchanged |
| Navbar.TintForgetsHistory | JS/script.js:155-159 | the tint depends only on the latest scroll position |
| Overlay.OnLoad | JS/script.js:163-171 | the load event puts `hide` on a present overlay and attaches its listener; with no overlay it does nothing |
| Overlay.OnAnimationEnd | JS/script.js:171-175 | an overlay is removed exactly when its listener is attached and the ended animation is "introFadeOut"; otherwise nothing changes |
| Overlay.EventsKeepValid | JS/script.js:163-175 | an attached listener always comes with the `hide` class |
| Overlay.RemovedOnlyAfterFadeOut | JS/script.js:163-175 | removal needs the fade-out to have started and the ended animation to be "introFadeOut" |
| Reveal.ObserveAll | JS/script.js:83-90 | every observed element gets the reveal-on-scroll class, and its reveal state is untouched |
| Reveal.HandleEntries | JS/script.js:72-80 | after a batch of reports, each element is revealed exactly as the last report about it says; elements not reported keep their state |
| Reveal.ReportDecides | JS/script.js:74-78 | a report of leaving the viewport removes `reveal`, so reveal is not sticky |
| Reveal.HandleEntriesIdempotent | JS/script.js:72-80 | delivering the same batch twice has the effect of delivering it once |
| Page.RegisteredAsWritten | JS/script.js:41-64 | as written, the theme-click listener exists iff there is a theme toggle, and the menu listener and all later listeners exist iff there is a menu button |
| Page.Registered | JS/script.js:41-148 | corrected start-up: a missing menu button skips only its own listener; reveal, link clicks and the highlighter are always attached |
| Page.InitAsWritten | JS/script.js:2-148 | the script's own start-up: the page invariant holds and the theme is resolved as above without writing storage; the attached listeners are the as-written registration (the later ones exist iff there is a menu button); menu, navbar, sections, elements, overlay, scroll position and idle throttle come from the markup and inputs; without a button, links and observed elements stay as the markup has them; with one, it equals the corrected start-up |
| Page.Init | JS/script.js:2-148 | corrected start-up: the listeners are the corrected registration; the page invariant holds and the theme is resolved as above, with storage and the system flag kept and the control present iff the markup has one; links keep their hrefs and are highlighted for the initial scroll position; every observed element is marked and keeps its reveal state; menu, navbar, sections and elements are the markup's; the overlay is present and not yet hidden iff the markup has one; the throttle is idle and no scroll is requested |
| Page.Step | JS/script.js:41-175 | the system-change and navbar-tint listeners always react; theme and menu clicks do nothing without their listeners; link clicks and reveal reports do nothing, and scrolls leave the throttle alone, unless the enhancements were set up; a scroll records the position, tints the navbar exactly when it is past the top, and leaves the links as they were |
| Page.StepPreservesInv | JS/script.js:38-175 | every deliverable event keeps the page invariant, the attached listeners and the page structure |
| Page.Run | JS/script.js:38-175 | any sequence of deliverable events keeps the invariant, the attached listeners, the sections, the elements and the numbers of links and observed elements |
| Page.ThemeStaysLegal | JS/script.js:37-53 | after start-up and any events, `data-theme` is "dark" or "light" and the control agrees with it |
| Page.ThemeClickPersists | JS/script.js:41-47 | a click makes storage and the root hold the same value, the opposite of before, and the control's pressed state matches |
| Page.StoredPreferenceWins | JS/script.js:50-53 | with a stored preference, a system change alters neither the root nor the control |
| Page.SystemDarkAppliesWithoutPreference | JS/script.js:50-53 | with no stored preference, a system change to dark applies dark |
| Page.LinkWithoutTargetIsInert | JS/script.js:104-113 | a click on a link whose target does not exist changes nothing |
| Page.FrameHighlightsCurrentSection | JS/script.js:139-144 | a frame with a pending callback lowers the flag and makes a link active exactly when it points at the section current at that scroll position |
| Page.OverlayRemovedOnlyByFadeOut | JS/script.js:163-175 | no event except the end of "introFadeOut" after the fade-out began removes the overlay |
| Page.AsWrittenNeverTouchesLinks | JS/script.js:61-148 | on a page whose enhancements were not set up, no run of events of any length changes a link's highlight or an observed element |
| Page.AsWrittenWithoutButtonKeepsMarkup | JS/script.js:61-148 | as written, on any markup without a menu button, start-up followed by any run of events leaves links and observed elements exactly as the markup has them |
| Page.MissingMenuButtonDisablesPage | JS/script.js:61-64 | as written, on a concrete page without a menu button, the link of the section in view is not highlighted at start-up nor after a scroll and a frame; a link click gets no navbar-aware scroll and closes no menu; the observed element is not marked |
| Page.MissingMenuButtonTolerated | JS/script.js:61-148 | with the corrected start-up, the same page highlights its link, scrolls on click and marks its observed element |
| Page.RegistrationDiffersOnlyWithoutButton | JS/script.js:61-64 | for every markup, the two listener registrations differ only when the menu button is missing |

## Left out

- The real browser APIs are left out; their results enter as values. These are DOM queries and selector strings, `localStorage`, `matchMedia`, `requestAnimationFrame` timing, smooth-scroll animation, and `animationend` dispatch.
- The fallback to `addListener` (lines 55-59) is left out. The system-change listener is assumed to be attached.
- Viewport-watcher geometry is left out: the 0.1 threshold and the −100 px bottom margin. An `Intersection` event carries each report's outcome.
- Fractional `scrollY` is left out, and so is the unused `clientHeight` read at line 122. Offsets are integers.
- `SmoothScroll.FindTarget`: the target lookup is an exact id match. The one exception is the bare `"#"`, which is an invalid selector, so the handler stops and nothing changes. Other selector syntax, such as ids that are not CSS identifiers, is not modelled.
- A smooth scroll does not move `scrollY`. The model records the requested destination in `scrollRequest`, and the animation's own scroll events arrive as `Scroll` events. The browser's clamp at the bottom of the document is not modelled.
- The browser's default fragment navigation is not modelled. It only happens when no click listener calls `preventDefault`, which is the as-written page without a menu button. There, a link click jumps to the target with no navbar clearance. The model leaves the page unchanged in that case.
- The layout is fixed at start-up. The script re-reads section offsets on every highlighter run (line 121), and target offsets and the navbar height on every link click (line 107). The model reads them once from the markup, and no event changes them. Relayout after a resize or late-loading content is not modelled.
- Events before `DOMContentLoaded` are not modelled. Start-up is the page state right after that handler.
- `Navbar.TintNavbar`: the script throws on every scroll when there is no navbar. That error has no effect on the page state, so it is not modelled.

## Findings

| source | as written | input that shows it | evidently intended | confidence | as-written member | corrected member |
|---|---|---|---|---|---|---|
| JS/script.js:61 | `toggleButton.addEventListener` is called without a null check. When the markup has no mobile menu button, this throws. The throw aborts the rest of the start-up handler: reveal marking and the watcher, the link-click handler (navbar-aware smooth scroll and menu close; the browser's plain jump to the fragment remains), the throttled highlighter and its first run. | a page with no `.mobile-menu-toggle`, one section "home" at 0 and a link "#home": the link is never highlighted, and a click on it gets no navbar-aware scroll | skip only the menu listener, as lines 41, 110 and 111 do for the same kind of optional element with `?.` | medium, not executed | Page.AsWrittenWithoutButtonKeepsMarkup | Page.Registered |
