/**
 * The navigation bar's active link: a click marks one link, and scrolling
 * marks the link of the section under the viewport's reading line.
 */
module Navigation {
  import opened Wrappers

  /** A page section: its offset from the top, its height and its id. */
  datatype Section = Section(top: int, height: int, id: string)

  /** The reading line sits this many pixels below the top of the viewport. */
  const ScrollOffset: int := 100

  /** `pos` lies in the half-open band `[top, top + height)` of the section. */
  predicate Covers(s: Section, pos: int) {
    s.top <= pos < s.top + s.height
  }

  /** The index of the last section, in document order, that covers `pos`. */
  function LastMatch(sections: seq<Section>, pos: int): (r: Option<nat>)
    ensures r.None? <==> forall j :: 0 <= j < |sections| ==> !Covers(sections[j], pos)
    ensures r.Some? ==> r.value < |sections| && Covers(sections[r.value], pos)
    ensures r.Some? ==> forall j :: r.value < j < |sections| ==> !Covers(sections[j], pos)
    decreases |sections|
  {
    if sections == [] then None
    else if Covers(sections[|sections| - 1], pos) then Some(|sections| - 1)
    else LastMatch(sections[..|sections| - 1], pos)
  }

  /** The target of a link to the section with this id. */
  function HashOf(id: string): string {
    "#" + id
  }

  /** The first link, in document order, whose href points at section `id`. */
  function LinkFor(hrefs: seq<string>, id: string): (r: Option<nat>)
    ensures r.None? <==> forall i :: 0 <= i < |hrefs| ==> hrefs[i] != HashOf(id)
    ensures r.Some? ==> r.value < |hrefs| && hrefs[r.value] == HashOf(id)
    ensures r.Some? ==> forall j :: 0 <= j < r.value ==> hrefs[j] != HashOf(id)
  {
    LinkFrom(hrefs, HashOf(id), 0)
  }

  function LinkFrom(hrefs: seq<string>, target: string, i: nat): (r: Option<nat>)
    requires i <= |hrefs|
    ensures r.None? <==> forall k :: i <= k < |hrefs| ==> hrefs[k] != target
    ensures r.Some? ==> i <= r.value < |hrefs| && hrefs[r.value] == target
    ensures r.Some? ==> forall k :: i <= k < r.value ==> hrefs[k] != target
    decreases |hrefs| - i
  {
    if i == |hrefs| then None
    else if hrefs[i] == target then Some(i)
    else LinkFrom(hrefs, target, i + 1)
  }

  /** Sections laid out one after another, each starting where the previous ends. */
  predicate Tiled(sections: seq<Section>) {
    && (forall j :: 0 <= j < |sections| ==> sections[j].height >= 0)
    && (forall j :: 0 < j < |sections| ==> sections[j].top == sections[j - 1].top + sections[j - 1].height)
  }

  lemma {:induction false} TiledStartsAfter(sections: seq<Section>, j: nat, k: nat)
    requires Tiled(sections)
    requires j < k < |sections|
    ensures sections[k].top >= sections[j].top + sections[j].height
    decreases k - j
  {
    if k > j + 1 {
      TiledStartsAfter(sections, j, k - 1);
    }
  }

  /** On a tiled page at most one section covers a position, so it is the one chosen. */
  lemma TiledMatchIsUnique(sections: seq<Section>, pos: int, j: nat)
    requires Tiled(sections)
    requires j < |sections| && Covers(sections[j], pos)
    ensures LastMatch(sections, pos) == Some(j)
  {
    var r := LastMatch(sections, pos);
    if r.value != j {
      assert r.value > j;
      TiledStartsAfter(sections, j, r.value);
      assert false;
    }
  }

  class NavigationManager {
    /** The `href` of every `.nav-link`, in document order. */
    const hrefs: seq<string>
    /** Whether each link carries the `active` class. */
    const active: array<bool>

    ghost predicate Valid()
      reads this
    {
      active.Length == |hrefs|
    }

    /** The indices of the active links. */
    ghost function ActiveLinks(): set<nat>
      reads this, active
    {
      set i: nat | i < active.Length && active[i]
    }

    /** Construction ends with `setActiveLink()`: no link is active. */
    constructor (hrefs: seq<string>)
      ensures Valid() && fresh(active) && this.hrefs == hrefs
      ensures ActiveLinks() == {}
    {
      this.hrefs := hrefs;
      active := new bool[|hrefs|];
      new;
      SetActiveLink(None);
    }

    /** Clears the `active` class of every link, then marks `link` when one is given. */
    method SetActiveLink(link: Option<nat>)
      requires Valid()
      requires link.Some? ==> link.value < active.Length
      modifies active
      ensures forall i :: 0 <= i < active.Length ==> active[i] == (link == Some(i))
      ensures ActiveLinks() == if link.Some? then {link.value} else {}
    {
      var i := 0;
      while i < active.Length
        invariant 0 <= i <= active.Length
        invariant forall k :: 0 <= k < i ==> !active[k]
      {
        active[i] := false;
        i := i + 1;
      }
      if link.Some? {
        active[link.value] := true;
      }
      assert forall i :: 0 <= i < active.Length ==> active[i] == (link == Some(i));
    }

    /**
     * The scroll handler: every section, in order, whose band holds
     * `scrollY + 100` clears the links and marks its own, so the last such
     * section wins; with none, the links stay as they were.
     */
    method UpdateActiveLink(sections: seq<Section>, scrollY: int)
      requires Valid()
      modifies active
      ensures LastMatch(sections, scrollY + ScrollOffset).None? ==> active[..] == old(active[..])
      ensures LastMatch(sections, scrollY + ScrollOffset).Some? ==>
        var k := LastMatch(sections, scrollY + ScrollOffset).value;
        forall i :: 0 <= i < active.Length ==> active[i] == (LinkFor(hrefs, sections[k].id) == Some(i))
    {
      var pos := scrollY + ScrollOffset;
      var n := 0;
      while n < |sections|
        invariant 0 <= n <= |sections|
        invariant LastMatch(sections[..n], pos).None? ==> active[..] == old(active[..])
        invariant LastMatch(sections[..n], pos).Some? ==>
          var k := LastMatch(sections[..n], pos).value;
          forall i :: 0 <= i < active.Length ==> active[i] == (LinkFor(hrefs, sections[k].id) == Some(i))
      {
        assert sections[..n + 1][..n] == sections[..n];
        if Covers(sections[n], pos) {
          // The same effect as the handler's inline clear-and-mark.
          SetActiveLink(LinkFor(hrefs, sections[n].id));
        }
        n := n + 1;
      }
      assert sections[..n] == sections;
    }
  }
}
