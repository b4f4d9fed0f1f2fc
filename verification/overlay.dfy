/** The intro overlay: faded out on page load and removed once its own
    fade-out animation has finished. */
module Overlay {
  import opened Wrappers

  /** Name of the overlay's fade-out animation. */
  const FadeOutAnimation := "introFadeOut"

  /** A present overlay: whether it has the `hide` class, and whether the
      animation-end listener has been attached. */
  datatype Overlay = Overlay(hide: bool, listening: bool)

  /** A listener is attached only together with the `hide` class. */
  predicate Valid(o: Option<Overlay>) {
    o.Some? && o.value.listening ==> o.value.hide
  }

  /** The load event: a present overlay starts fading out and starts listening;
      with no overlay nothing happens. */
  function OnLoad(o: Option<Overlay>): (r: Option<Overlay>)
    ensures o.None? ==> r.None?
    ensures o.Some? ==> r == Some(Overlay(true, true))
  {
    match o
    case None => None
    case Some(_) => Some(Overlay(true, true))
  }

  /** An animation on the overlay (or bubbling from inside it) ended. Only the
      fade-out, heard by an attached listener, removes the overlay. */
  function OnAnimationEnd(o: Option<Overlay>, name: string): (r: Option<Overlay>)
    ensures r.None? <==> o.None? || (o.value.listening && name == FadeOutAnimation)
    ensures r.Some? ==> r == o
  {
    match o
    case None => None
    case Some(v) => if v.listening && name == FadeOutAnimation then None else o
  }

  /** Both events keep the listener tied to the fade-out class. */
  lemma EventsKeepValid(o: Option<Overlay>, name: string)
    requires Valid(o)
    ensures Valid(OnLoad(o)) && Valid(OnAnimationEnd(o, name))
  {
  }

  /** Removal happens only after the fade-out was triggered. */
  lemma RemovedOnlyAfterFadeOut(o: Option<Overlay>, name: string)
    requires Valid(o) && o.Some?
    ensures OnAnimationEnd(o, name).None? ==> o.value.hide && name == FadeOutAnimation
  {
  }
}
