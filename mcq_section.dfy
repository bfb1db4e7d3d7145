/**
 * The multiple-choice panel: one remembered option per question, a switch
 * that reveals the answers and freezes the selection, and the marks each
 * option gets.
 */
module McqSection {
  import opened Analysis

  /** `selectedAnswers[q] === o`: an absent entry selects nothing. */
  predicate IsSelected(selected: map<nat, nat>, q: nat, o: nat) {
    q in selected && selected[q] == o
  }

  /**
   * The selection after clicking option `o` of question `q`: it replaces
   * that question's choice while the answers are hidden, and is ignored
   * while they are shown.
   */
  function AfterSelect(selected: map<nat, nat>, showAnswers: bool, q: nat, o: nat): (r: map<nat, nat>)
    ensures showAnswers ==> r == selected
    ensures !showAnswers ==> IsSelected(r, q, o)
    ensures forall p :: p != q ==> (p in r <==> p in selected) && (p in r ==> r[p] == selected[p])
  {
    if showAnswers then selected else selected[q := o]
  }

  /** A later click on the same question replaces the earlier one. */
  lemma ReselectReplaces(selected: map<nat, nat>, q: nat, o1: nat, o2: nat)
    ensures AfterSelect(AfterSelect(selected, false, q, o1), false, q, o2) == AfterSelect(selected, false, q, o2)
  {
  }

  /** A question never has two selected options. */
  lemma OneSelectionPerQuestion(selected: map<nat, nat>, q: nat, n: nat)
    ensures |set o | 0 <= o < n && IsSelected(selected, q, o)| <= 1
  {
    var chosen := set o | 0 <= o < n && IsSelected(selected, q, o);
    if q in selected && selected[q] < n {
      assert chosen == {selected[q]};
    } else {
      assert chosen == {};
    }
  }

  /** The check mark: shown answers, the correct option, selected or not. */
  predicate ShowsCheck(mcq: Mcq, showAnswers: bool, o: nat) {
    showAnswers && mcq.correctAnswer == o
  }

  /** The cross: shown answers, the selected option, and not the correct one. */
  predicate ShowsCross(mcq: Mcq, selected: map<nat, nat>, showAnswers: bool, q: nat, o: nat) {
    showAnswers && IsSelected(selected, q, o) && mcq.correctAnswer != o
  }

  /**
   * With the answers hidden nothing is marked; with them shown the correct
   * option is checked, a wrong choice is crossed, and no option is both.
   */
  lemma MarkingRules(mcq: Mcq, selected: map<nat, nat>, showAnswers: bool, q: nat, o: nat)
    ensures !showAnswers ==> !ShowsCheck(mcq, showAnswers, o) && !ShowsCross(mcq, selected, showAnswers, q, o)
    ensures !(ShowsCheck(mcq, showAnswers, o) && ShowsCross(mcq, selected, showAnswers, q, o))
    ensures showAnswers && 0 <= mcq.correctAnswer ==> ShowsCheck(mcq, showAnswers, mcq.correctAnswer as nat)
    ensures showAnswers && q in selected && selected[q] != mcq.correctAnswer ==> ShowsCross(mcq, selected, showAnswers, q, selected[q])
  {
  }

  /** At most one option of a question is crossed. */
  lemma AtMostOneCross(mcq: Mcq, selected: map<nat, nat>, showAnswers: bool, q: nat, n: nat)
    ensures |set o | 0 <= o < n && ShowsCross(mcq, selected, showAnswers, q, o)| <= 1
  {
    var crossed := set o | 0 <= o < n && ShowsCross(mcq, selected, showAnswers, q, o);
    if q in selected && selected[q] < n && ShowsCross(mcq, selected, showAnswers, q, selected[q]) {
      assert crossed == {selected[q]};
    } else {
      assert crossed == {};
    }
  }

  /** `String.fromCharCode(65 + o)`: `A` for the first option, then on through the code points. */
  function OptionLetter(o: nat): (c: char)
    requires 65 + o < 0xD800
    ensures c as int - 'A' as int == o
  {
    (65 + o) as char
  }

  lemma OptionLettersDistinct(o1: nat, o2: nat)
    requires 65 + o1 < 0xD800 && 65 + o2 < 0xD800
    ensures OptionLetter(o1) == OptionLetter(o2) <==> o1 == o2
    ensures o1 < 26 ==> 'A' <= OptionLetter(o1) <= 'Z'
  {
  }

  /** The panel's state. */
  class McqPanel {
    var selected: map<nat, nat>
    var showAnswers: bool

    constructor ()
      ensures selected == map[] && !showAnswers
    {
      selected := map[];
      showAnswers := false;
    }

    /** `handleSelect`. */
    method Select(q: nat, o: nat)
      modifies this
      ensures selected == AfterSelect(old(selected), old(showAnswers), q, o)
      ensures showAnswers == old(showAnswers)
    {
      if !showAnswers {
        selected := selected[q := o];
      }
    }

    /** The show/hide button; the selection is kept. */
    method ToggleAnswers()
      modifies this
      ensures showAnswers == !old(showAnswers)
      ensures selected == old(selected)
    {
      showAnswers := !showAnswers;
    }
  }
}
