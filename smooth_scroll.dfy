/**
  In-page anchor links: the default jump is always suppressed; a bare `#` does
  nothing; otherwise the fragment is resolved and, when it names an element,
  the page is asked to scroll to the element's `offsetTop` less the navbar height.
 */
module SmoothScroll {

  import opened Wrappers

  /**
    The scroll request for a click on a link whose `href` starts with `#`.
    `tops` maps each selector that resolves to an element to that element's
    `offsetTop`, measured from its offset parent; `navHeight` is the navbar's
    current rendered height.
   */
  function ScrollTarget(href: string, tops: map<string, int>, navHeight: int): (r: Option<int>)
    requires |href| > 0 && href[0] == '#'
    ensures r.None? <==> href == "#" || href !in tops
    ensures r.Some? ==> r.value + navHeight == tops[href]
  {
    if href == "#" then None
    else if href !in tops then None
    else Some(tops[href] - navHeight)
  }
}
