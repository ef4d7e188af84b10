/** The check/uncheck rule that both selection lists of the interface
    apply to their selection (dependencySelector.jsx, holidaySelector.jsx):
    checking appends the value, unchecking filters every copy of it out. */
module Checkboxes {
  import opened Lists

  /** A checkbox click on the selection: checking appends `x` at the end,
      unchecking drops every occurrence of `x`. */
  function Toggle<T(==,!new)>(selected: seq<T>, x: T, checked: bool): (r: seq<T>)
    ensures checked ==> r == selected + [x]
    ensures !checked ==> x !in r && IsSubsequence(r, selected) &&
                         forall y :: y != x ==> Count(r, y) == Count(selected, y)
  {
    if checked then selected + [x] else RemoveAll(selected, x)
  }

  /** After the change the box of `x` shows `checked`, and every other
      value is selected exactly when it was before. */
  lemma ToggleShows<T(!new)>(selected: seq<T>, x: T, checked: bool, y: T)
    ensures (x in Toggle(selected, x, checked)) == checked
    ensures y != x ==> (y in Toggle(selected, x, checked) <==> y in selected)
  {
    var r := Toggle(selected, x, checked);
    if !checked && y != x {
      assert Count(r, y) == Count(selected, y);
    }
  }

  /** Checking a value that was not selected and unchecking it again gives
      back the selection. */
  lemma CheckThenUncheck<T(!new)>(selected: seq<T>, x: T)
    requires x !in selected
    ensures Toggle(Toggle(selected, x, true), x, false) == selected
  {
    RemoveAllAppend(selected, [x], x);
    RemoveAllAbsent(selected, x);
  }

  /** Unchecking twice is unchecking once. */
  lemma UncheckIdempotent<T(!new)>(selected: seq<T>, x: T)
    ensures Toggle(Toggle(selected, x, false), x, false) == Toggle(selected, x, false)
  {
    RemoveAllAbsent(RemoveAll(selected, x), x);
  }
}
