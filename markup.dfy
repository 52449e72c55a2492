/**
 * What the listing parser reads from BeautifulSoup, as plain values. The
 * markup parser itself is not modelled: a selector that finds nothing is
 * `None`, and a found tag is described by the two strings the scripts take
 * from it.
 */
module Markup {
  import opened Options

  /** A tag: its `.string` (`None` unless the tag holds exactly one string)
      and its `decode_contents()` (the inner markup). */
  datatype Element = Element(str: Option<string>, contents: string)
}
