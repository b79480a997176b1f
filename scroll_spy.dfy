/**
  The scroll handler of the site script: it highlights the navigation link
  of the section the reader has scrolled into and gives the navigation bar a
  background once the page has scrolled past its top.
 */
module ScrollSpy {

  /** A page section: its `id` attribute and its `offsetTop`, in pixels. */
  datatype Section = Section(id: string, top: int)

  /** A section counts as reached once the scroll position is no more than
      100 pixels above its top. */
  predicate Reached(section: Section, scrollY: int)
  {
    scrollY >= section.top - 100
  }

  /** The id of the last reached section in document order, or "" when no
      section is reached. */
  function Current(sections: seq<Section>, scrollY: int): string
  {
    if sections == [] then ""
    else if Reached(sections[|sections| - 1], scrollY) then sections[|sections| - 1].id
    else Current(sections[..|sections| - 1], scrollY)
  }

  /** When no section is reached the current id is empty. */
  lemma {:induction false} CurrentWhenNoneReached(sections: seq<Section>, scrollY: int)
    requires forall i :: 0 <= i < |sections| ==> !Reached(sections[i], scrollY)
    ensures Current(sections, scrollY) == ""
  {
    if sections != [] {
      CurrentWhenNoneReached(sections[..|sections| - 1], scrollY);
    }
  }

  /** The current id is that of the last reached section: a reached section
      wins over every section before it, and loses to none after it. */
  lemma {:induction false} CurrentIsLastReached(sections: seq<Section>, scrollY: int, j: int)
    requires 0 <= j < |sections| && Reached(sections[j], scrollY)
    requires forall k :: j < k < |sections| ==> !Reached(sections[k], scrollY)
    ensures Current(sections, scrollY) == sections[j].id
  {
    if j < |sections| - 1 {
      CurrentIsLastReached(sections[..|sections| - 1], scrollY, j);
    }
  }

  /** One run of the scroll listener: the loop that picks the current
      section, the loop that sets the `active` class of each navigation link
      (given by its `href`), and the `scrolled` class of the navigation bar.
      Every class is set afresh, so the new state depends on the inputs
      only. */
  method OnScroll(sections: seq<Section>, hrefs: seq<string>, scrollY: int)
    returns (current: string, linkActive: seq<bool>, scrolled: bool)
    ensures current == Current(sections, scrollY)
    ensures |linkActive| == |hrefs|
    ensures forall i :: 0 <= i < |hrefs| ==> (linkActive[i] <==> hrefs[i] == "#" + current)
    ensures scrolled <==> scrollY > 50
  {
    current := "";
    for i := 0 to |sections|
      invariant current == Current(sections[..i], scrollY)
    {
      if scrollY >= sections[i].top - 100 {
        current := sections[i].id;
      }
      assert sections[..i + 1][..i] == sections[..i];
    }
    assert sections[..|sections|] == sections;
    linkActive := [];
    for i := 0 to |hrefs|
      invariant |linkActive| == i
      invariant forall k :: 0 <= k < i ==> (linkActive[k] <==> hrefs[k] == "#" + current)
    {
      linkActive := linkActive + [hrefs[i] == "#" + current];
    }
    scrolled := scrollY > 50;
  }
}
