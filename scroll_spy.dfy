/** The scroll handler of the navigation menu: it finds the section under
    the probe line 100 pixels below the top of the viewport and marks the
    nav link pointing at that section as active. Layout positions are
    whole pixels. */
module ScrollSpy {
  import opened Dom

  /** A `section[id]`: its id, its offset from the top of the page and its height. */
  datatype Section = Section(id: string, top: int, height: int)

  /** A menu link: its `href` and its classes. */
  datatype NavLink = NavLink(href: string, classes: set<string>)

  /** How far below the scroll position the probe line sits. */
  const ProbeOffset: int := 100

  predicate Contains(section: Section, position: int) {
    section.top <= position < section.top + section.height
  }

  /** The section id the handler settles on: that of the last section that
      contains `position`, or "" when none does. */
  function CurrentSection(sections: seq<Section>, position: int): (id: string)
    ensures id == "" || exists k | 0 <= k < |sections| :: Contains(sections[k], position) && id == sections[k].id
    decreases |sections|
  {
    if |sections| == 0 then ""
    else if Contains(sections[|sections| - 1], position) then sections[|sections| - 1].id
    else CurrentSection(sections[..|sections| - 1], position)
  }

  /** The handler's choice is the id of the last section containing the
      probe position. */
  lemma {:induction false} CurrentSectionIsLastContaining(sections: seq<Section>, position: int, k: int)
    requires 0 <= k < |sections| && Contains(sections[k], position)
    requires forall j | k < j < |sections| :: !Contains(sections[j], position)
    ensures CurrentSection(sections, position) == sections[k].id
    decreases |sections|
  {
    if k < |sections| - 1 {
      CurrentSectionIsLastContaining(sections[..|sections| - 1], position, k);
    }
  }

  /** When no section contains the probe position, the choice is "". */
  lemma {:induction false} CurrentSectionNone(sections: seq<Section>, position: int)
    requires forall j | 0 <= j < |sections| :: !Contains(sections[j], position)
    ensures CurrentSection(sections, position) == ""
    decreases |sections|
  {
    if 0 < |sections| {
      CurrentSectionNone(sections[..|sections| - 1], position);
    }
  }

  /** The sections loop of the handler: `currentSection` ends as the id of
      the last section containing the probe line, or "" if none does. */
  method SelectSection(sections: seq<Section>, scrollY: int) returns (current: string)
    ensures current == CurrentSection(sections, scrollY + ProbeOffset)
    ensures (forall j | 0 <= j < |sections| :: !Contains(sections[j], scrollY + ProbeOffset)) ==> current == ""
    ensures forall k | 0 <= k < |sections| && Contains(sections[k], scrollY + ProbeOffset) ::
              (forall j | k < j < |sections| :: !Contains(sections[j], scrollY + ProbeOffset)) ==> current == sections[k].id
  {
    var position := scrollY + ProbeOffset;
    current := "";
    var i := 0;
    while i < |sections|
      invariant 0 <= i <= |sections|
      invariant current == CurrentSection(sections[..i], position)
    {
      assert sections[..i + 1][..i] == sections[..i];
      if Contains(sections[i], position) {
        current := sections[i].id;
      }
      i := i + 1;
    }
    assert sections[..i] == sections;
    if forall j | 0 <= j < |sections| :: !Contains(sections[j], position) {
      CurrentSectionNone(sections, position);
    }
    forall k | 0 <= k < |sections| && Contains(sections[k], position) &&
               (forall j | k < j < |sections| :: !Contains(sections[j], position))
      ensures current == sections[k].id
    {
      CurrentSectionIsLastContaining(sections, position, k);
    }
  }

  /** Each link is active exactly when its `href` is `#` followed by `current`. */
  predicate MarksOnly(links: seq<NavLink>, current: string) {
    forall i | 0 <= i < |links| :: "active" in links[i].classes <==> links[i].href == "#" + current
  }

  predicate DistinctHrefs(links: seq<NavLink>) {
    forall i, j | 0 <= i < j < |links| :: links[i].href != links[j].href
  }

  /** The positions of the active links. */
  function ActiveLinks(links: seq<NavLink>): set<int> {
    set i | 0 <= i < |links| && "active" in links[i].classes
  }

  /** With distinct hrefs at most one link is active. */
  lemma AtMostOneActive(links: seq<NavLink>, current: string)
    requires MarksOnly(links, current) && DistinctHrefs(links)
    ensures |ActiveLinks(links)| <= 1
  {
    var active := ActiveLinks(links);
    if active != {} {
      var i :| i in active;
      forall j | j in active
        ensures j == i
      {
        assert links[j].href == links[i].href;
      }
      assert active == {i};
    }
  }

  /** When no section contains the probe line the handler compares hrefs
      with a bare "#": the active links are exactly those whose href is "#",
      so none is active in a menu without such a link. */
  lemma NoSectionActiveLinks(links: seq<NavLink>)
    requires MarksOnly(links, "")
    ensures ActiveLinks(links) == set i | 0 <= i < |links| && links[i].href == "#"
    ensures (forall i | 0 <= i < |links| :: links[i].href != "#") ==> ActiveLinks(links) == {}
  {
    assert "#" + "" == "#";
  }

  /** The links of the navigation menu. */
  class NavMenu {
    var links: seq<NavLink>

    constructor(links0: seq<NavLink>)
      ensures links == links0
    {
      links := links0;
    }

    /** The scroll handler: chooses the current section, then clears
        `active` on every link and sets it on those pointing at that
        section. Hrefs and all other classes stay as they were. */
    method OnScroll(sections: seq<Section>, scrollY: int)
      modifies this
      ensures |links| == |old(links)|
      ensures MarksOnly(links, CurrentSection(sections, scrollY + ProbeOffset))
      ensures forall i | 0 <= i < |links| :: links[i].href == old(links)[i].href &&
                forall c | c != "active" :: c in links[i].classes <==> c in old(links)[i].classes
    {
      var currentSection := SelectSection(sections, scrollY);
      var i := 0;
      while i < |links|
        invariant 0 <= i <= |links| == |old(links)|
        invariant forall j | 0 <= j < |links| :: links[j].href == old(links)[j].href
        invariant forall j | i <= j < |links| :: links[j] == old(links)[j]
        invariant forall j | 0 <= j < i ::
                    links[j].classes == Toggle(old(links)[j].classes, "active", links[j].href == "#" + currentSection)
      {
        var link := links[i];
        var classes := link.classes - {"active"};
        if link.href == "#" + currentSection {
          classes := classes + {"active"};
        }
        links := links[i := link.(classes := classes)];
        i := i + 1;
      }
    }
  }
}
