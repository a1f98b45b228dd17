/** The multiple-choice player of src/components/McqGame.jsx: option selection (single or
    multiple), the check step, and how each option is highlighted. It keeps no score. */
module McqGame {
  import opened Lists

  /** A question's `answer`: a list of options, or (when the data holds a string) a text,
      on which `includes` is a substring test. */
  datatype Answer = Options(items: seq<string>) | Text(text: string)

  /** `Array.isArray(answer) && answer.length > 1`. */
  predicate IsMultiSelect(answer: Answer) {
    answer.Options? && |answer.items| > 1
  }

  /** `t` starts `s`. */
  predicate IsPrefix(t: string, s: string) {
    |t| <= |s| && s[..|t|] == t
  }

  /** `s.includes(t)` for strings: `t` occurs somewhere in `s`. */
  predicate IsSubstring(t: string, s: string)
    decreases |s|
  {
    IsPrefix(t, s) || (|s| > 0 && IsSubstring(t, s[1..]))
  }

  /** `answer.includes(option)`. */
  predicate IsCorrect(answer: Answer, option: string) {
    match answer
    case Options(items) => option in items
    case Text(text) => IsSubstring(option, text)
  }

  /** A text answer accepts every piece of itself, so any option that occurs in the answer
      text is marked correct. */
  lemma {:induction false} TextAnswerAcceptsPieces(pre: string, option: string, post: string)
    ensures IsCorrect(Text(pre + option + post), option)
  {
    var s := pre + option + post;
    if pre == [] {
      assert s == option + post;
      assert s[..|option|] == option;
    } else {
      TextAnswerAcceptsPieces(pre[1..], option, post);
      assert s[1..] == pre[1..] + option + post;
    }
  }

  /** The multi-select click on an option: remove it when picked, append it otherwise. */
  function Toggle(selected: seq<string>, option: string): (r: seq<string>)
    ensures option in r <==> option !in selected
    ensures forall o :: o != option ==> (o in r <==> o in selected)
  {
    if option in selected then
      var r := RemoveAll(selected, option);
      assert forall o :: o in r <==> o in multiset(r);
      assert forall o :: o in selected <==> o in multiset(selected);
      r
    else
      var r := selected + [option];
      assert forall o :: o in r <==> o in selected || o == option;
      r
  }

  /** Toggling never picks an option twice. */
  lemma ToggleKeepsNoDup(selected: seq<string>, option: string)
    requires NoDup(selected)
    ensures NoDup(Toggle(selected, option))
  {
    if option in selected {
      RemoveAllKeepsNoDup(selected, option);
    }
  }

  /** Clicking the same option twice restores the picked set; when the option was not
      picked the selection is exactly as before. */
  lemma ToggleTwice(selected: seq<string>, option: string)
    ensures forall o :: o in Toggle(Toggle(selected, option), option) <==> o in selected
    ensures option !in selected ==> Toggle(Toggle(selected, option), option) == selected
  {
    if option !in selected {
      RemoveAllAppend(selected, [option], option);
      RemoveAllAbsent(selected, option);
      assert RemoveAll([option], option) == [];
    }
  }

  /** How an option is drawn. */
  datatype Highlight = CorrectPick | WrongPick | Picked | Plain

  /** Picked options are blue until checked, then green when correct and red otherwise;
      options not picked stay plain. */
  function HighlightOf(selected: seq<string>, checked: bool, answer: Answer, option: string): (h: Highlight)
    ensures h == Plain <==> option !in selected
    ensures h == Picked <==> option in selected && !checked
    ensures h == CorrectPick <==> option in selected && checked && IsCorrect(answer, option)
    ensures h == WrongPick <==> option in selected && checked && !IsCorrect(answer, option)
  {
    if option in selected then
      if checked then (if IsCorrect(answer, option) then CorrectPick else WrongPick) else Picked
    else Plain
  }

  /** One multiple-choice question on screen. */
  class McqSession {
    const answer: Answer
    var selected: seq<string>
    var checked: bool

    /** A multi-select question never holds an option twice; a single-select one holds at
        most one, and holds one exactly once it is checked. */
    ghost predicate Valid()
      reads this
    {
      && (IsMultiSelect(answer) ==> NoDup(selected))
      && (!IsMultiSelect(answer) ==> |selected| <= 1 && (checked <==> |selected| == 1))
    }

    constructor(answer: Answer)
      ensures Valid()
      ensures this.answer == answer && selected == [] && !checked
    {
      this.answer := answer;
      selected := [];
      checked := false;
    }

    /** `handleOptionClick`: ignored once checked; a single-select click picks the option
        and checks at once; a multi-select click toggles the option. */
    method OptionClick(option: string)
      requires Valid()
      modifies this
      ensures Valid()
      ensures old(checked) ==> selected == old(selected) && checked
      ensures !old(checked) && !IsMultiSelect(answer) ==> selected == [option] && checked
      ensures !old(checked) && IsMultiSelect(answer) ==> selected == Toggle(old(selected), option) && !checked
    {
      if checked {
        return;
      }
      if IsMultiSelect(answer) {
        ToggleKeepsNoDup(selected, option);
        selected := Toggle(selected, option);
      } else {
        selected := [option];
        checked := true;
      }
    }

    /** The Check button is offered only for a multi-select question not yet checked, and
        is disabled while nothing is picked. */
    predicate CheckEnabled()
      reads this
    {
      IsMultiSelect(answer) && !checked && |selected| > 0
    }

    /** `handleCheckClick`: reveals the verdicts; the selection stays. */
    method CheckClick()
      requires Valid() && CheckEnabled()
      modifies this
      ensures Valid()
      ensures checked && selected == old(selected)
    {
      checked := true;
    }

    /** `handleNextClick` is empty: the Next button changes nothing. */
    method NextClick()
      requires Valid()
      ensures Valid()
    {
    }
  }
}
