/**
 * The accordion as the page holds it: per-item state kept in arrays and
 * rewritten in place by the header click handler.
 */
module AccordionWidget {
  import opened AccordionSpec

  /** The items of one accordion, in document order. */
  class Accordion {
    /** Whether item k carries the "active" class. */
    var active: array<bool>
    /** The pixel count of item k's content `style.maxHeight`. */
    var maxHeight: array<nat>
    /** Whether item k's header has aria-expanded "true". */
    var ariaExpanded: array<bool>
    /** The `scrollHeight` of item k's content; the layout owns it and may change it between clicks, the handler only reads it. */
    var scrollHeight: array<nat>
    /** Delays of the ScrollTrigger refreshes scheduled so far, oldest first. */
    var refreshes: seq<nat>

    ghost predicate Valid()
      reads this
    {
      && active.Length == maxHeight.Length == ariaExpanded.Length == scrollHeight.Length
      && active != ariaExpanded
      && maxHeight != scrollHeight
    }

    /** The items' state as values. */
    ghost function Items(): (r: seq<Item>)
      reads this, active, maxHeight, ariaExpanded
      requires Valid()
      ensures |r| == active.Length
    {
      var flags, heights, expanded := active[..], maxHeight[..], ariaExpanded[..];
      seq(|flags|, k requires 0 <= k < |flags| => Item(flags[k], heights[k], expanded[k]))
    }

    /** The whole page as a value. */
    ghost function State(): (p: Page)
      reads this, active, maxHeight, ariaExpanded
      requires Valid()
    {
      Page(Items(), refreshes)
    }

    /**
     * An accordion whose items start in the given states (the markup decides
     * them) and whose contents measure `heights`.
     */
    constructor (initial: seq<Item>, heights: array<nat>)
      requires |initial| == heights.Length
      ensures Valid()
      ensures Items() == initial && refreshes == []
      ensures scrollHeight == heights
      ensures fresh(active) && fresh(maxHeight) && fresh(ariaExpanded)
    {
      var n := |initial|;
      active := new bool[n](k requires 0 <= k < n => initial[k].active);
      maxHeight := new nat[n](k requires 0 <= k < n => initial[k].maxHeight);
      ariaExpanded := new bool[n](k requires 0 <= k < n => initial[k].ariaExpanded);
      scrollHeight := heights;
      refreshes := [];
    }

    /**
     * The click handler of item `i`'s header. `scrollTriggerLoaded` says
     * whether the ScrollTrigger global is defined at the time of the click.
     */
    method Click(i: nat, scrollTriggerLoaded: bool)
      requires Valid() && i < active.Length
      modifies active, maxHeight, ariaExpanded, this`refreshes
      ensures Valid()
      ensures State() == Step(old(State()), scrollHeight[..], HeaderClick(i, scrollTriggerLoaded))
      ensures AtMostOneActive(Items()) && Mirrors(Items(), scrollHeight[..])
    {
      var n := active.Length;
      var isActive := active[i];

      // Close every other item.
      var j := 0;
      while j < n
        modifies active, maxHeight, ariaExpanded
        invariant 0 <= j <= n
        invariant forall k :: 0 <= k < j && k != i ==>
          !active[k] && maxHeight[k] == 0 && !ariaExpanded[k]
        invariant forall k :: j <= k < n ==>
          active[k] == old(active[k]) && maxHeight[k] == old(maxHeight[k]) && ariaExpanded[k] == old(ariaExpanded[k])
      {
        if j != i {
          active[j] := false;
          maxHeight[j] := 0;
          ariaExpanded[j] := false;
        }
        j := j + 1;
      }

      // Toggle the clicked item.
      if isActive {
        active[i] := false;
        maxHeight[i] := 0;
        ariaExpanded[i] := false;
      } else {
        active[i] := true;
        maxHeight[i] := scrollHeight[i];
        ariaExpanded[i] := true;
      }

      // Refresh ScrollTrigger once the CSS transition has finished.
      if scrollTriggerLoaded {
        refreshes := refreshes + [TransitionDuration];
      }

      ghost var expected := Toggle(old(Items()), scrollHeight[..], i);
      assert forall k :: 0 <= k < n ==> Items()[k] == expected[k];
      assert Items() == expected;
      ToggleAtMostOneActive(old(Items()), scrollHeight[..], i);
      ToggleMirrors(old(Items()), scrollHeight[..], i);
    }
  }
}
