/**
 * The viva list: each question's answer has its own reveal flag, and the
 * questions are numbered `V1`, `V2`, ...
 */
module VivaQuestions {
  import opened JsText

  /** `visibleAnswers[i]` is truthy; an absent entry is hidden. */
  predicate IsVisible(visible: map<nat, bool>, i: nat) {
    i in visible && visible[i]
  }

  /** `toggleAnswer(i)`: entry `i` becomes the negation of what it was. */
  function Flip(visible: map<nat, bool>, i: nat): (r: map<nat, bool>)
    ensures IsVisible(r, i) == !IsVisible(visible, i)
    ensures forall j :: j != i ==> (j in r <==> j in visible) && (j in r ==> r[j] == visible[j])
  {
    visible[i := !IsVisible(visible, i)]
  }

  /** A flag that was never set is revealed by the first toggle. */
  lemma FirstToggleReveals(visible: map<nat, bool>, i: nat)
    requires i !in visible
    ensures IsVisible(Flip(visible, i), i)
  {
  }

  /** Two toggles of the same entry give back its visibility and every other one. */
  lemma FlipTwice(visible: map<nat, bool>, i: nat, j: nat)
    ensures IsVisible(Flip(Flip(visible, i), i), j) == IsVisible(visible, j)
  {
  }

  /** Toggles of different entries do not interfere, in either order. */
  lemma FlipsCommute(visible: map<nat, bool>, i: nat, j: nat, k: nat)
    ensures IsVisible(Flip(Flip(visible, i), j), k) == IsVisible(Flip(Flip(visible, j), i), k)
  {
  }

  /** Revealing one answer leaves another revealed answer open. */
  lemma SeveralVisible(visible: map<nat, bool>, i: nat, j: nat)
    requires i != j && IsVisible(visible, j) && !IsVisible(visible, i)
    ensures IsVisible(Flip(visible, i), i) && IsVisible(Flip(visible, i), j)
  {
  }

  /** The label `V{i + 1}`: a `V` and the one-based number in decimal. */
  function VivaLabel(i: nat): (r: string)
    ensures |r| >= 2 && r[0] == 'V'
    ensures forall k :: 1 <= k < |r| ==> '0' <= r[k] <= '9'
    ensures DigitsValue(r[1..]) == i + 1
  {
    DecimalNatRoundTrip(i + 1);
    assert ("V" + DecimalNat(i + 1))[1..] == DecimalNat(i + 1);
    "V" + DecimalNat(i + 1)
  }

  /** The list's state. */
  class VivaList {
    var visible: map<nat, bool>

    constructor ()
      ensures visible == map[]
    {
      visible := map[];
    }

    method ToggleAnswer(i: nat)
      modifies this
      ensures visible == Flip(old(visible), i)
    {
      visible := visible[i := !(i in visible && visible[i])];
    }
  }
}
