/** Reveal-on-scroll: each observed element shows the `reveal` class exactly
    while the viewport watcher last reported it as intersecting. */
module Reveal {
  import opened Wrappers

  /** An observed element: whether it has been marked for reveal-on-scroll
      (`reveal-on-scroll` class) and whether it is revealed (`reveal` class). */
  datatype Observed = Observed(marked: bool, revealed: bool)

  /** One report of the watcher about the observed element at `target`. */
  datatype Entry = Entry(target: nat, isIntersecting: bool)

  /** The watcher only reports elements it observes. */
  predicate EntriesFit(entries: seq<Entry>, n: nat) {
    forall k :: 0 <= k < |entries| ==> entries[k].target < n
  }

  /** Registration: every element gets the reveal-on-scroll class and is
      observed; the `reveal` class is left as the markup has it. */
  function ObserveAll(els: seq<Observed>): (r: seq<Observed>)
    ensures |r| == |els|
    ensures forall i :: 0 <= i < |r| ==> r[i].marked && r[i].revealed == els[i].revealed
  {
    seq(|els|, i requires 0 <= i < |els| => Observed(true, els[i].revealed))
  }

  /** The position of the last report about element `i`, if any. */
  function LastEntryFor(entries: seq<Entry>, i: nat): (k: Option<nat>)
    ensures k.Some? ==> k.value < |entries| && entries[k.value].target == i
    ensures k.Some? ==> forall j :: k.value < j < |entries| ==> entries[j].target != i
    ensures k.None? ==> forall j :: 0 <= j < |entries| ==> entries[j].target != i
    decreases |entries|
  {
    if |entries| == 0 then None
    else if entries[|entries| - 1].target == i then Some(|entries| - 1)
    else LastEntryFor(entries[..|entries| - 1], i)
  }

  /** What element `i` shows after a batch: the last report about it, or its
      previous state when the batch does not mention it. */
  function Expected(el: Observed, entries: seq<Entry>, i: nat): bool {
    match LastEntryFor(entries, i)
    case None => el.revealed
    case Some(k) => entries[k].isIntersecting
  }

  /** One watcher callback: the batch is handled in order, each report adding or
      removing `reveal` on its element. */
  function HandleEntries(els: seq<Observed>, entries: seq<Entry>): (r: seq<Observed>)
    requires EntriesFit(entries, |els|)
    ensures |r| == |els|
    ensures forall i :: 0 <= i < |r| ==> r[i].marked == els[i].marked
    ensures forall i :: 0 <= i < |r| ==> r[i].revealed == Expected(els[i], entries, i)
    decreases |entries|
  {
    if |entries| == 0 then els
    else
      var e := entries[|entries| - 1];
      var before := HandleEntries(els, entries[..|entries| - 1]);
      before[e.target := Observed(before[e.target].marked, e.isIntersecting)]
  }

  /** Reveal state is not sticky: an element reported as leaving loses the class. */
  lemma ReportDecides(els: seq<Observed>, i: nat, intersecting: bool)
    requires i < |els|
    ensures HandleEntries(els, [Entry(i, intersecting)])[i].revealed == intersecting
  {
    assert LastEntryFor([Entry(i, intersecting)], i) == Some(0);
  }

  /** Delivering the same batch again changes nothing. */
  lemma HandleEntriesIdempotent(els: seq<Observed>, entries: seq<Entry>)
    requires EntriesFit(entries, |els|)
    ensures HandleEntries(HandleEntries(els, entries), entries) == HandleEntries(els, entries)
  {
    var once := HandleEntries(els, entries);
    var twice := HandleEntries(once, entries);
    forall i | 0 <= i < |els|
      ensures twice[i] == once[i]
    {
      assert twice[i].revealed == Expected(once[i], entries, i);
    }
  }
}
