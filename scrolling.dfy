/** Same-page anchor scrolling (script.js, lines 91-110). The target lookup
    (`document.querySelector(href)` and `getBoundingClientRect().top`) is a
    parameter: the target's top edge relative to the viewport, if an element
    matches. Positions are whole numbers here. */
module SmoothScroll {

  /** The height of the fixed header the target must clear. */
  const HeaderOffset := 80

  datatype Option<T> = None | Some(value: T)

  /** What the click handler does: leave the click to the browser, suppress
      the default navigation and nothing else, or suppress it and scroll the
      window to `top`. */
  datatype AnchorAction = FollowDefault | Suppress | ScrollTo(top: int)

  /** The handler is attached only to links whose `href` starts with `#`.
      `ScrollTo(top)` is the position requested from `window.scrollTo`: the
      target's page position less the header height; the browser's clamping
      of that request to the scrollable range is not part of it. */
  function OnAnchorClick(href: string, targetTop: Option<int>, pageYOffset: int): (r: AnchorAction)
    requires |href| > 0 && href[0] == '#'
    ensures r == FollowDefault <==> href == "#"
    ensures r.ScrollTo? <==> href != "#" && targetTop.Some?
    ensures r.ScrollTo? ==> targetTop.value + pageYOffset - r.top == HeaderOffset
  {
    if href == "#" then FollowDefault
    else match targetTop
      case None => Suppress
      case Some(elementPosition) => ScrollTo(elementPosition + pageYOffset - HeaderOffset)
  }
}

/** The header shadow (script.js, lines 115-128): recomputed from the
    vertical scroll offset on every scroll event. */
module HeaderShadow {

  const Threshold := 100

  datatype Shadow = Weak | Strong

  /** The shadow the scroll handler applies for a vertical offset. */
  function ShadowFor(pageYOffset: int): (r: Shadow)
    ensures r == Strong <==> pageYOffset > Threshold
  {
    if pageYOffset > Threshold then Strong else Weak
  }

  /** Scrolling further down never weakens the shadow. */
  lemma ShadowMonotone(y1: int, y2: int)
    requires y1 <= y2 && ShadowFor(y1) == Strong
    ensures ShadowFor(y2) == Strong
  {
  }
}
