/** The few facts about document elements that the page script reads. */
module Dom {

  /** An element carrying an `id` attribute, with its `offsetTop` in whole pixels. */
  datatype Element = Element(id: string, offsetTop: int)

  /** A navigation anchor: its `href` attribute and whether it holds the `active` class. */
  datatype Link = Link(href: string, active: bool)

  /** The in-page fragment that points at the element with identifier `id`. */
  function Anchor(id: string): (a: string)
    ensures |a| == |id| + 1 && a[0] == '#' && a[1..] == id
  {
    "#" + id
  }
}
