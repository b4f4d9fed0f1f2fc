/** The animation-frame throttle in front of the active-link highlighter: a
    `ticking` flag and the frame callbacks it has scheduled. */
module Throttle {

  /** `pending` counts the frame callbacks scheduled and not yet run. */
  datatype Throttle = Throttle(ticking: bool, pending: nat)

  /** The flag tells the truth: a callback is pending exactly while ticking. */
  predicate Valid(t: Throttle) {
    t.pending == if t.ticking then 1 else 0
  }

  /** The state before any scroll. */
  const Idle := Throttle(false, 0)

  /** A scroll event: while ticking nothing is scheduled; otherwise one
      callback is scheduled and the flag raised. */
  function OnScroll(t: Throttle): (r: Throttle)
    ensures r.ticking
    ensures t.ticking ==> r == t
    ensures !t.ticking ==> r.pending == t.pending + 1
    ensures Valid(t) ==> Valid(r)
  {
    if t.ticking then t else Throttle(true, t.pending + 1)
  }

  /** The next animation frame: every pending callback runs the highlighter once
      and lowers the flag. */
  function OnFrame(t: Throttle): (r: (Throttle, nat))
    ensures r.0 == Idle
    ensures r.1 == t.pending
    ensures Valid(t) ==> r.1 <= 1
  {
    (Idle, t.pending)
  }

  /** `n` scroll events in a row. */
  function Scrolls(t: Throttle, n: nat): Throttle
    decreases n
  {
    if n == 0 then t else Scrolls(OnScroll(t), n - 1)
  }

  /** However many scroll events arrive between two frames, at most one
      highlighter run is scheduled, and at least one scroll schedules one. */
  lemma {:induction false} BurstSchedulesAtMostOne(t: Throttle, n: nat)
    requires Valid(t)
    ensures Valid(Scrolls(t, n))
    ensures Scrolls(t, n).pending <= 1
    ensures n > 0 ==> Scrolls(t, n).ticking && Scrolls(t, n).pending == 1
    decreases n
  {
    if n > 0 {
      BurstSchedulesAtMostOne(OnScroll(t), n - 1);
    }
  }

  /** A burst followed by a frame runs the highlighter exactly once. */
  lemma BurstThenFrameRunsOnce(n: nat)
    requires n > 0
    ensures OnFrame(Scrolls(Idle, n)).1 == 1
    ensures OnFrame(Scrolls(Idle, n)).0 == Idle
  {
    BurstSchedulesAtMostOne(Idle, n);
  }
}
