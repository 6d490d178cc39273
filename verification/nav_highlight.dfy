/** The navbar highlighter of main.js: on every scroll event the handler walks
    the page's sections in document order, remembers the id of the last one
    whose top (less a 100-pixel allowance) the page has scrolled past, and
    then marks exactly the nav links whose href is "#" followed by that id. */
module NavHighlight {
  import opened Wrappers

  /** How far above a section's top the page counts as having reached it. */
  const Allowance: int := 100

  /** A `section` or `div.container[id]` element: its `offsetTop`, and its
      `getAttribute("id")`, None standing for null. */
  datatype Section = Section(offsetTop: int, id: Option<string>)

  /** The JavaScript value held in `current`: a string, or the null read
      from a section without an id. */
  datatype Current = Str(s: string) | Null

  /** A `nav a` element: its `getAttribute("href")` (None for null) and
      whether it carries the class `active-link`. */
  datatype Link = Link(href: Option<string>, active: bool)

  /** The test of the handler: `pageYOffset >= offsetTop - 100`. */
  predicate Reached(s: Section, y: int)
  {
    y >= s.offsetTop - Allowance
  }

  /** The value `getAttribute("id")` puts into `current`. */
  function IdValue(s: Section): Current
  {
    match s.id
    case Some(v) => Str(v)
    case None => Null
  }

  /** How the template literal `#${current}` renders `current`. */
  function Render(c: Current): string
  {
    match c
    case Str(s) => s
    case Null => "null"
  }

  /** The `forEach` over the sections, in document order, carrying `current`. */
  function SelectFrom(current: Current, sections: seq<Section>, y: int): Current
    decreases |sections|
  {
    if |sections| == 0 then current
    else SelectFrom(if Reached(sections[0], y) then IdValue(sections[0]) else current, sections[1..], y)
  }

  /** `current` after the walk, starting from the empty string. */
  function Select(sections: seq<Section>, y: int): Current
  {
    SelectFrom(Str(""), sections, y)
  }

  /** Reference definition, searching from the end: the index of the last
      section the page has reached, if any. */
  function LastReached(sections: seq<Section>, y: int): (r: Option<nat>)
    ensures r.Some? ==> r.value < |sections| && Reached(sections[r.value], y)
    ensures r.Some? ==> forall j :: r.value < j < |sections| ==> !Reached(sections[j], y)
    ensures r.None? <==> forall j :: 0 <= j < |sections| ==> !Reached(sections[j], y)
  {
    if |sections| == 0 then None
    else if Reached(sections[|sections| - 1], y) then Some(|sections| - 1)
    else LastReached(sections[..|sections| - 1], y)
  }

  /** What `current` holds when the walk has picked the given index, or
      nothing. */
  function Chosen(sections: seq<Section>, k: Option<nat>, otherwise: Current): Current
    requires k.Some? ==> k.value < |sections|
  {
    match k
    case Some(i) => IdValue(sections[i])
    case None => otherwise
  }

  /** Looking at the first section separately does not change which section
      is the last one reached. */
  lemma LastReachedFront(sections: seq<Section>, y: int)
    requires |sections| > 0
    ensures LastReached(sections, y) ==
            match LastReached(sections[1..], y)
            case Some(k) => Some(k + 1)
            case None => if Reached(sections[0], y) then Some(0) else None
  {
  }

  /** Selection: the walk leaves the id of the last section, in document
      order, whose top less 100 is at or above the scroll offset, and leaves
      its starting value when no section qualifies. */
  lemma {:induction false} SelectFromIsLastReached(current: Current, sections: seq<Section>, y: int)
    ensures SelectFrom(current, sections, y) == Chosen(sections, LastReached(sections, y), current)
    decreases |sections|
  {
    if |sections| > 0 {
      var next := if Reached(sections[0], y) then IdValue(sections[0]) else current;
      SelectFromIsLastReached(next, sections[1..], y);
      LastReachedFront(sections, y);
    }
  }

  /** The handler's `current`: the id of the last reached section, or "" when
      none has been reached. */
  lemma SelectIsLastReached(sections: seq<Section>, y: int)
    ensures Select(sections, y) == Chosen(sections, LastReached(sections, y), Str(""))
    ensures (forall j :: 0 <= j < |sections| ==> !Reached(sections[j], y)) ==> Select(sections, y) == Str("")
  {
    SelectFromIsLastReached(Str(""), sections, y);
  }

  /** Scrolling further down never selects a section earlier in document
      order; this needs no assumption on the sections' offsets. */
  lemma SelectionMonotone(sections: seq<Section>, y1: int, y2: int)
    requires y1 <= y2
    requires LastReached(sections, y1).Some?
    ensures LastReached(sections, y2).Some?
    ensures LastReached(sections, y1).value <= LastReached(sections, y2).value
  {
  }

  /** The sections appear with non-decreasing offsets. */
  predicate SortedByOffset(sections: seq<Section>)
  {
    forall i, j :: 0 <= i <= j < |sections| ==> sections[i].offsetTop <= sections[j].offsetTop
  }

  /** With sections laid out top to bottom, the reached sections form a
      prefix, and scrolling further down selects a section at or below the
      previous one on the page. */
  lemma SortedSelection(sections: seq<Section>, y1: int, y2: int)
    requires SortedByOffset(sections)
    requires y1 <= y2
    requires LastReached(sections, y1).Some?
    ensures forall j :: 0 <= j <= LastReached(sections, y1).value ==> Reached(sections[j], y1)
    ensures LastReached(sections, y2).Some?
    ensures sections[LastReached(sections, y1).value].offsetTop <= sections[LastReached(sections, y2).value].offsetTop
  {
  }

  /** The link marking: every link loses `active-link`, and gets it back
      exactly when its href is "#" followed by `current`. */
  function MarkLinks(links: seq<Link>, current: Current): (r: seq<Link>)
    ensures |r| == |links|
    ensures forall i :: 0 <= i < |links| ==> r[i].href == links[i].href
    ensures forall i :: 0 <= i < |links| ==> (r[i].active <==> links[i].href == Some("#" + Render(current)))
  {
    if |links| == 0 then []
    else [Link(links[0].href, links[0].href == Some("#" + Render(current)))] + MarkLinks(links[1..], current)
  }

  /** One scroll event of the highlighter. */
  function Highlight(sections: seq<Section>, links: seq<Link>, y: int): seq<Link>
  {
    MarkLinks(links, Select(sections, y))
  }

  /** The marks left by a scroll event do not depend on the marks before it:
      two link lists with the same hrefs end up identical, and a second event
      at the same offset changes nothing. */
  lemma HighlightForgetsPreviousMarks(sections: seq<Section>, a: seq<Link>, b: seq<Link>, y: int)
    requires |a| == |b|
    requires forall i :: 0 <= i < |a| ==> a[i].href == b[i].href
    ensures Highlight(sections, a, y) == Highlight(sections, b, y)
    ensures Highlight(sections, Highlight(sections, a, y), y) == Highlight(sections, a, y)
  {
  }

  /** When the hrefs are pairwise distinct, at most one link is active. */
  lemma AtMostOneActive(sections: seq<Section>, links: seq<Link>, y: int)
    requires forall i, j :: 0 <= i < j < |links| ==> links[i].href != links[j].href
    ensures var r := Highlight(sections, links, y);
            forall i, j :: 0 <= i < j < |r| && r[i].active ==> !r[j].active
  {
  }

  /** When no section has been reached, the only link that can be active is
      one whose href is exactly "#". */
  lemma NothingReachedOnlyBareHash(sections: seq<Section>, links: seq<Link>, y: int)
    requires forall j :: 0 <= j < |sections| ==> !Reached(sections[j], y)
    ensures var r := Highlight(sections, links, y);
            forall i :: 0 <= i < |r| ==> (r[i].active <==> links[i].href == Some("#"))
  {
    SelectIsLastReached(sections, y);
    assert "#" + Render(Select(sections, y)) == "#";
  }

  /** A reached section with no id puts null into `current`, so only a link
      whose href is "#null" can be active. */
  lemma MissingIdSelectsNull(sections: seq<Section>, links: seq<Link>, y: int)
    requires LastReached(sections, y).Some?
    requires sections[LastReached(sections, y).value].id.None?
    ensures Select(sections, y) == Null
    ensures var r := Highlight(sections, links, y);
            forall i :: 0 <= i < |r| ==> (r[i].active <==> links[i].href == Some("#null"))
  {
    SelectIsLastReached(sections, y);
    assert "#" + Render(Select(sections, y)) == "#null";
  }
}
