/** Light/dark theme preference: resolution at start-up, application to the
    document root and the toggle control, explicit toggling with persistence,
    and reaction to changes of the system colour-scheme preference. */
module Theme {
  import opened Wrappers

  const Dark := "dark"
  const Light := "light"

  /** Values the document root's `data-theme` attribute may legitimately hold. */
  predicate IsTheme(t: string) {
    t == Dark || t == Light
  }

  /** The accessibility attributes of the theme toggle control. */
  datatype ToggleControl = ToggleControl(ariaPressed: string, ariaLabel: string)

  /** The theme part of the page:
      - `stored`: the value under the preference key in local storage (`None` when unset);
      - `systemDark`: whether the system currently prefers a dark colour scheme;
      - `dataTheme`: the root element's `data-theme` attribute;
      - `toggle`: the theme toggle control, when the markup has one. */
  datatype ThemeState = ThemeState(
    stored: Option<string>,
    systemDark: bool,
    dataTheme: string,
    toggle: Option<ToggleControl>)

  /** The stored value used as a condition: JavaScript treats both a missing
      entry (`null`) and the empty string as false. */
  predicate HasOverride(stored: Option<string>) {
    stored.Some? && stored.value != ""
  }

  /** A stored value that start-up resolution accepts. */
  predicate IsValidStored(stored: Option<string>) {
    stored.Some? && IsTheme(stored.value)
  }

  /** The control's attributes describe `theme`: pressed and offering light mode
      exactly when the theme is dark, unpressed and offering dark mode otherwise. */
  predicate Synced(c: ToggleControl, theme: string) {
    && (c.ariaPressed == "true" <==> theme == Dark)
    && (c.ariaPressed == "false" <==> theme != Dark)
    && (c.ariaLabel == "Switch to light mode" <==> theme == Dark)
    && (c.ariaLabel == "Switch to dark mode" <==> theme != Dark)
  }

  /** What every operation after start-up keeps: a legal theme on the root,
      and a toggle control (if any) that agrees with it. */
  predicate Inv(s: ThemeState) {
    && IsTheme(s.dataTheme)
    && (s.toggle.Some? ==> Synced(s.toggle.value, s.dataTheme))
  }

  /** The effective theme: an exactly valid stored value wins; anything else
      (nothing stored, the empty string, an unknown value) defers to the system. */
  function ResolvePreferredTheme(stored: Option<string>, systemDark: bool): (t: string)
    ensures IsTheme(t)
    ensures IsValidStored(stored) ==> t == stored.value
    ensures !IsValidStored(stored) ==> (t == Dark <==> systemDark)
  {
    if stored == Some(Dark) || stored == Some(Light) then stored.value
    else if systemDark then Dark else Light
  }

  /** Updates the toggle control's attributes for `theme`; without a control
      there is nothing to update. */
  function SyncToggleState(toggle: Option<ToggleControl>, theme: string): (r: Option<ToggleControl>)
    ensures r.Some? <==> toggle.Some?
    ensures r.Some? ==> Synced(r.value, theme)
  {
    match toggle
    case None => None
    case Some(_) =>
      Some(ToggleControl(
        if theme == Dark then "true" else "false",
        if theme == Dark then "Switch to light mode" else "Switch to dark mode"))
  }

  /** Sets the root attribute to `theme` and synchronises the control; storage
      and the system preference are untouched. */
  function ApplyTheme(s: ThemeState, theme: string): (r: ThemeState)
    ensures r.dataTheme == theme
    ensures r.stored == s.stored && r.systemDark == s.systemDark
    ensures r.toggle.Some? <==> s.toggle.Some?
    ensures r.toggle.Some? ==> Synced(r.toggle.value, theme)
    ensures s.toggle.None? ==> r == s.(dataTheme := theme)
  {
    s.(dataTheme := theme, toggle := SyncToggleState(s.toggle, theme))
  }

  /** Start-up: whatever the markup put on the root and on the control, the
      resolved preference is applied. */
  function Start(stored: Option<string>, systemDark: bool, markupTheme: string,
                 toggle: Option<ToggleControl>): (s: ThemeState)
    ensures Inv(s)
    ensures s.stored == stored && s.systemDark == systemDark
    ensures s.toggle.Some? <==> toggle.Some?
    ensures IsValidStored(stored) ==> s.dataTheme == stored.value
    ensures !IsValidStored(stored) ==> (s.dataTheme == Dark <==> systemDark)
  {
    ApplyTheme(ThemeState(stored, systemDark, markupTheme, toggle),
               ResolvePreferredTheme(stored, systemDark))
  }

  /** A click on the toggle control: anything but "dark" on the root counts as
      light; the opposite theme is applied and written to storage. */
  function ClickToggle(s: ThemeState): (r: ThemeState)
    ensures IsTheme(r.dataTheme)
    ensures r.stored == Some(r.dataTheme)
    ensures r.dataTheme == Dark <==> s.dataTheme != Dark
    ensures r.systemDark == s.systemDark
    ensures r.toggle.Some? <==> s.toggle.Some?
    ensures Inv(r)
  {
    var current := if s.dataTheme == Dark then Dark else Light;
    var next := if current == Dark then Light else Dark;
    ApplyTheme(s, next).(stored := Some(next))
  }

  /** A change of the system colour-scheme preference to `prefersDark`. Only
      the absence of a truthy stored value lets it reach the page. */
  function SystemChange(s: ThemeState, prefersDark: bool): (r: ThemeState)
    ensures r.systemDark == prefersDark && r.stored == s.stored
    ensures r.toggle.Some? <==> s.toggle.Some?
    ensures HasOverride(s.stored) ==> r == s.(systemDark := prefersDark)
    ensures !HasOverride(s.stored) ==> IsTheme(r.dataTheme) && (r.dataTheme == Dark <==> prefersDark)
    ensures !HasOverride(s.stored) && s.toggle.Some? ==> r.toggle.Some? && Synced(r.toggle.value, r.dataTheme)
  {
    if HasOverride(s.stored) then s.(systemDark := prefersDark)
    else ApplyTheme(s.(systemDark := prefersDark), if prefersDark then Dark else Light)
  }

  /** Every theme operation after start-up keeps the invariant. */
  lemma OperationsPreserveInv(s: ThemeState, prefersDark: bool)
    requires Inv(s)
    ensures Inv(ClickToggle(s))
    ensures Inv(SystemChange(s, prefersDark))
  {
  }

  /** Two clicks restore the theme and the control; storage ends up holding the
      original theme. */
  lemma ClickTwiceRestores(s: ThemeState)
    requires Inv(s)
    ensures ClickToggle(ClickToggle(s)) == s.(stored := Some(s.dataTheme))
  {
    var once := ClickToggle(s);
    var twice := ClickToggle(once);
    assert twice.dataTheme == s.dataTheme;
    if s.toggle.Some? {
      assert Synced(twice.toggle.value, s.dataTheme) && Synced(s.toggle.value, s.dataTheme);
    }
  }

  /** The two readings of the stored value disagree on a non-empty invalid value:
      start-up ignores it and follows the system, yet it still shields the page
      from every later system-preference change. */
  lemma InvalidStoredValueAsymmetry(s: ThemeState, v: string, systemDark: bool, prefersDark: bool)
    requires v != "" && !IsTheme(v)
    ensures ResolvePreferredTheme(Some(v), systemDark) == (if systemDark then Dark else Light)
    ensures SystemChange(s.(stored := Some(v)), prefersDark).dataTheme == s.dataTheme
    ensures SystemChange(s.(stored := Some(v)), prefersDark).toggle == s.toggle
  {
  }

  /** The concrete case: "blue" in storage on a dark system. */
  lemma BlueIsIgnoredButBlocks(s: ThemeState)
    requires Inv(s) && s.dataTheme == Dark && s.stored == Some("blue")
    ensures Start(Some("blue"), true, Light, s.toggle).dataTheme == Dark
    ensures SystemChange(s, false).dataTheme == Dark
  {
  }
}
