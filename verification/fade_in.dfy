/** The fade-in reveal of main.js, for one intersecting entry. A `stagger`
    element reveals every `stagger` child of its parent at once, each with a
    transition delay of 150 ms times its position among ALL the parent's
    children; any other element reveals just itself. A revealed element is
    no longer observed. */
module FadeIn {
  import opened Wrappers

  /** Delay added per position among the parent's children, in milliseconds. */
  const StaggerStepMs: nat := 150

  /** A child of the intersecting element's parent: whether it has the class
      `stagger`, whether it has the class `visible`, its transition delay in
      milliseconds (None until assigned), and whether the observer still
      watches it. */
  datatype Child = Child(stagger: bool, visible: bool, delayMs: Option<nat>, observed: bool)

  /** Adds `visible` and stops observing. */
  function Revealed(c: Child): Child
  {
    c.(visible := true, observed := false)
  }

  /** The `forEach` over the siblings, where `offset` is the position of the
      first of `children` among the parent's children. */
  function StaggerSiblings(children: seq<Child>, offset: nat): (r: seq<Child>)
    ensures |r| == |children|
    ensures forall i :: 0 <= i < |children| && !children[i].stagger ==> r[i] == children[i]
    ensures forall i :: 0 <= i < |children| && children[i].stagger ==>
              r[i] == Revealed(children[i]).(delayMs := Some((offset + i) * StaggerStepMs))
    decreases |children|
  {
    if |children| == 0 then []
    else
      var first := if children[0].stagger
                   then Revealed(children[0]).(delayMs := Some(offset * StaggerStepMs))
                   else children[0];
      [first] + StaggerSiblings(children[1..], offset + 1)
  }

  /** The observer callback for one entry whose target is `children[target]`. */
  function OnEntry(children: seq<Child>, target: nat, intersecting: bool): (r: seq<Child>)
    requires target < |children|
    ensures |r| == |children|
    ensures !intersecting ==> r == children
    ensures intersecting && children[target].stagger ==>
              forall i :: 0 <= i < |children| ==>
                r[i] == if children[i].stagger
                        then Revealed(children[i]).(delayMs := Some(i * StaggerStepMs))
                        else children[i]
    ensures intersecting && !children[target].stagger ==>
              r == children[target := Revealed(children[target])]
  {
    if !intersecting then children
    else if children[target].stagger then StaggerSiblings(children, 0)
    else children[target := Revealed(children[target])]
  }

  /** An intersecting entry always leaves its target visible and unobserved,
      and never hides a child that was visible. */
  lemma EntryRevealsTarget(children: seq<Child>, target: nat)
    requires target < |children|
    ensures OnEntry(children, target, true)[target].visible
    ensures !OnEntry(children, target, true)[target].observed
    ensures forall i :: 0 <= i < |children| && children[i].visible ==> OnEntry(children, target, true)[i].visible
  {
  }

  /** Stagger delays follow document order: of two `stagger` children, the
      later one gets the strictly larger delay, and delays of siblings that
      are two positions apart differ by 300 ms whatever lies between them. */
  lemma DelaysFollowOrder(children: seq<Child>, target: nat, i: nat, j: nat)
    requires target < |children| && children[target].stagger
    requires i < j < |children| && children[i].stagger && children[j].stagger
    ensures var r := OnEntry(children, target, true);
            r[i].delayMs.Some? && r[j].delayMs.Some? &&
            r[j].delayMs.value - r[i].delayMs.value == (j - i) * StaggerStepMs > 0
  {
  }

  /** The index is taken among all children, not among `stagger` ones: with a
      plain child between two `stagger` ones, the second waits 300 ms. */
  lemma IndexCountsAllChildren()
    ensures var plain := Child(false, false, None, true);
            var stag := Child(true, false, None, true);
            OnEntry([stag, plain, stag], 0, true) ==
              [Child(true, true, Some(0), false), plain, Child(true, true, Some(300), false)]
  {
  }

  /** Handling the same entry twice is the same as handling it once. */
  lemma OnEntryIdempotent(children: seq<Child>, target: nat, intersecting: bool)
    requires target < |children|
    ensures OnEntry(OnEntry(children, target, intersecting), target, intersecting) ==
            OnEntry(children, target, intersecting)
  {
  }
}
