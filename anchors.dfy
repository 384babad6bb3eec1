/**
 * Smooth scrolling for in-page anchors: which element an anchor's href
 * names, and where the window scrolls to so that the fixed navbar does not
 * hide it.
 */
module Anchors {
  /** The height of the fixed navbar, subtracted from the target's offset. */
  const NavbarHeight: int := 70

  /** The only anchors the handler is attached to: those whose href starts with `#`. */
  predicate IsHashHref(href: string) {
    |href| > 0 && href[0] == '#'
  }

  /**
   * What a click on such an anchor does. `Ignored`: the default action is
   * kept. `NoTarget`: the default is prevented but no element has the id.
   * `ScrollTo`: the default is prevented and the window scrolls.
   */
  datatype ScrollAction = Ignored | NoTarget | ScrollTo(top: int)

  predicate PreventsDefault(a: ScrollAction) {
    !a.Ignored?
  }

  /** The id looked up for an href: everything after its first character. */
  function TargetId(href: string): (id: string)
    requires IsHashHref(href)
    ensures href == ['#'] + id
  {
    href[1..]
  }

  /** `offsetTops` maps each element id of the page to that element's `offsetTop`. */
  function ResolveAnchor(href: string, offsetTops: map<string, int>): (a: ScrollAction)
    requires IsHashHref(href)
    ensures a.Ignored? <==> href == "#"
    ensures PreventsDefault(a) <==> href != "#"
    ensures href != "#" ==> (a.ScrollTo? <==> TargetId(href) in offsetTops)
    ensures a.ScrollTo? ==> a.top == offsetTops[TargetId(href)] - NavbarHeight
  {
    if href == "#" then Ignored
    else if TargetId(href) in offsetTops then ScrollTo(offsetTops[TargetId(href)] - NavbarHeight)
    else NoTarget
  }

  /**
   * A link written `#id` for a non-empty id scrolls to 70 pixels above the
   * element with that id, or only prevents the default when there is none.
   */
  lemma LinkToIdResolves(id: string, offsetTops: map<string, int>)
    requires id != ""
    ensures IsHashHref("#" + id)
    ensures ResolveAnchor("#" + id, offsetTops) ==
      if id in offsetTops then ScrollTo(offsetTops[id] - NavbarHeight) else NoTarget
  {
  }
}
