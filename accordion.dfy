/**
 * The short- and long-question lists share one behaviour: at most one
 * answer is expanded, and clicking a question opens it or, when it is the
 * open one, closes it.
 */
module Accordion {
  import opened Base

  /** `expandedIndex === i`: the answer is rendered and the chevron turned. */
  predicate IsOpen(expanded: Option<nat>, i: nat) {
    expanded == Some(i)
  }

  /** `setExpandedIndex(expandedIndex === i ? null : i)`. */
  function Click(expanded: Option<nat>, i: nat): (r: Option<nat>)
    ensures IsOpen(expanded, i) ==> r.None?
    ensures !IsOpen(expanded, i) ==> IsOpen(r, i) && forall j :: j != i ==> !IsOpen(r, j)
  {
    if expanded == Some(i) then None else Some(i)
  }

  /** Among `n` questions at most one answer is rendered. */
  lemma AtMostOneOpen(expanded: Option<nat>, n: nat)
    ensures |set i | 0 <= i < n && IsOpen(expanded, i)| <= 1
  {
    var open := set i | 0 <= i < n && IsOpen(expanded, i);
    if expanded.Some? && expanded.value < n {
      assert open == {expanded.value};
    } else {
      assert open == {};
    }
  }

  /** From all collapsed, two clicks on the same question collapse it again. */
  lemma ClickTwiceFromCollapsed(i: nat)
    ensures Click(Click(None, i), i) == None
  {
  }

  /** The state of one list. */
  class AccordionList {
    var expanded: Option<nat>

    constructor ()
      ensures expanded == None
    {
      expanded := None;
    }

    method ClickQuestion(i: nat)
      modifies this
      ensures expanded == Click(old(expanded), i)
    {
      if expanded == Some(i) {
        expanded := None;
      } else {
        expanded := Some(i);
      }
    }
  }
}
