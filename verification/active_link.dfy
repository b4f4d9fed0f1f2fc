/** Highlighting of the navigation link for the section currently in view. */
module ActiveLink {
  import opened Wrappers
  import opened Dom

  /** How far, in pixels, above a section's top the page may still be scrolled
      for that section to count as reached. */
  const ActivationOffset := 200

  /** The section has been reached at scroll position `scrollY`. */
  predicate Reached(section: Element, scrollY: int) {
    scrollY >= section.offsetTop - ActivationOffset
  }

  /** The position of the last reached section in document order, if any. */
  function LastReached(sections: seq<Element>, scrollY: int): (k: Option<nat>)
    ensures k.Some? ==> k.value < |sections| && Reached(sections[k.value], scrollY)
    ensures k.Some? ==> forall j :: k.value < j < |sections| ==> !Reached(sections[j], scrollY)
    ensures k.None? ==> forall j :: 0 <= j < |sections| ==> !Reached(sections[j], scrollY)
    decreases |sections|
  {
    if |sections| == 0 then None
    else if Reached(sections[|sections| - 1], scrollY) then Some(|sections| - 1)
    else LastReached(sections[..|sections| - 1], scrollY)
  }

  /** The identifier of the current section: that of the last reached section
      in document order, or "" when no section is reached. */
  function CurrentSection(sections: seq<Element>, scrollY: int): (id: string)
    ensures (forall j :: 0 <= j < |sections| ==> !Reached(sections[j], scrollY)) ==> id == ""
    ensures forall k :: 0 <= k < |sections| && Reached(sections[k], scrollY)
                          && (forall j :: k < j < |sections| ==> !Reached(sections[j], scrollY)) ==>
              id == sections[k].id
  {
    match LastReached(sections, scrollY)
    case None => ""
    case Some(k) => sections[k].id
  }

  /** The current section is the last reached one. */
  lemma CurrentSectionIsLastReached(sections: seq<Element>, scrollY: int, k: nat)
    requires k < |sections| && Reached(sections[k], scrollY)
    requires forall j :: k < j < |sections| ==> !Reached(sections[j], scrollY)
    ensures CurrentSection(sections, scrollY) == sections[k].id
  {
  }

  /** With no section reached the current section is "". */
  lemma CurrentSectionWhenNoneReached(sections: seq<Element>, scrollY: int)
    requires forall j :: 0 <= j < |sections| ==> !Reached(sections[j], scrollY)
    ensures CurrentSection(sections, scrollY) == ""
  {
  }

  /** Appending a section: it becomes current if reached, otherwise the earlier
      choice stands. This is one step of the document-order scan. */
  lemma CurrentSectionSnoc(sections: seq<Element>, s: Element, scrollY: int)
    ensures CurrentSection(sections + [s], scrollY) ==
              if Reached(s, scrollY) then s.id else CurrentSection(sections, scrollY)
  {
    assert (sections + [s])[..|sections|] == sections;
  }

  /** The scan as the script performs it: forward over the sections in document
      order, overwriting the candidate with every reached section. */
  method ScanSections(sections: seq<Element>, scrollY: int) returns (current: string)
    ensures current == CurrentSection(sections, scrollY)
  {
    current := "";
    var i := 0;
    while i < |sections|
      invariant 0 <= i <= |sections|
      invariant current == CurrentSection(sections[..i], scrollY)
    {
      CurrentSectionSnoc(sections[..i], sections[i], scrollY);
      assert sections[..i + 1] == sections[..i] + [sections[i]];
      if scrollY >= sections[i].offsetTop - ActivationOffset {
        current := sections[i].id;
      }
      i := i + 1;
    }
    assert sections[..i] == sections;
  }

  /** Every link loses `active`, then exactly those pointing at `current` regain it. */
  function MarkLinks(links: seq<Link>, current: string): (r: seq<Link>)
    ensures |r| == |links|
    ensures forall i :: 0 <= i < |r| ==> r[i].href == links[i].href
    ensures forall i :: 0 <= i < |r| ==> (r[i].active <==> links[i].href == Anchor(current))
  {
    seq(|links|, i requires 0 <= i < |links| => Link(links[i].href, links[i].href == Anchor(current)))
  }

  /** One run of the highlighter at scroll position `scrollY`: links keep their
      targets, and exactly those pointing at the current section are active. */
  function UpdateActiveLink(links: seq<Link>, sections: seq<Element>, scrollY: int): (r: seq<Link>)
    ensures |r| == |links|
    ensures forall i :: 0 <= i < |r| ==> r[i].href == links[i].href
    ensures forall i :: 0 <= i < |r| ==>
              (r[i].active <==> links[i].href == Anchor(CurrentSection(sections, scrollY)))
  {
    MarkLinks(links, CurrentSection(sections, scrollY))
  }

  /** Links with pairwise distinct targets. */
  predicate DistinctHrefs(links: seq<Link>) {
    forall i, j :: 0 <= i < j < |links| ==> links[i].href != links[j].href
  }

  /** With distinct targets at most one link ends up active. */
  lemma AtMostOneActive(links: seq<Link>, current: string, i: nat, j: nat)
    requires DistinctHrefs(links)
    requires i < j < |links|
    ensures !(MarkLinks(links, current)[i].active && MarkLinks(links, current)[j].active)
  {
  }

  /** Re-running the highlighter without scrolling changes nothing. */
  lemma UpdateIdempotent(links: seq<Link>, sections: seq<Element>, scrollY: int)
    ensures UpdateActiveLink(UpdateActiveLink(links, sections, scrollY), sections, scrollY)
              == UpdateActiveLink(links, sections, scrollY)
  {
  }

  /** The whole rule: a link is active exactly when it points at the last
      reached section, or, with no section reached, when it is the bare "#". */
  lemma UpdateActiveLinkSpec(links: seq<Link>, sections: seq<Element>, scrollY: int, i: nat)
    requires i < |links|
    ensures (forall j :: 0 <= j < |sections| ==> !Reached(sections[j], scrollY)) ==>
              (UpdateActiveLink(links, sections, scrollY)[i].active <==> links[i].href == "#")
    ensures forall k :: 0 <= k < |sections| && Reached(sections[k], scrollY)
                          && (forall j :: k < j < |sections| ==> !Reached(sections[j], scrollY)) ==>
              (UpdateActiveLink(links, sections, scrollY)[i].active <==> links[i].href == Anchor(sections[k].id))
  {
    if forall j :: 0 <= j < |sections| ==> !Reached(sections[j], scrollY) {
      CurrentSectionWhenNoneReached(sections, scrollY);
    }
    forall k | 0 <= k < |sections| && Reached(sections[k], scrollY)
                 && (forall j :: k < j < |sections| ==> !Reached(sections[j], scrollY))
      ensures UpdateActiveLink(links, sections, scrollY)[i].active <==> links[i].href == Anchor(sections[k].id)
    {
      CurrentSectionIsLastReached(sections, scrollY, k);
    }
  }

  /** Sections at 0, 400 and 900 scrolled to 650: the one at 400 is current. */
  lemma ThreeSectionsExample()
    ensures CurrentSection([Element("home", 0), Element("about", 400), Element("contact", 900)], 650) == "about"
  {
    CurrentSectionIsLastReached([Element("home", 0), Element("about", 400), Element("contact", 900)], 650, 1);
  }
}
