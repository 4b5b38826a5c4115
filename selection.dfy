/**
 * The single-choice facet selection shared by the blog tag list and the
 * knowledge-base category list: a `string | null` state toggled by clicks.
 */
module Selection {
  import opened Wrappers

  /**
   * The views test the selection for truthiness (`!selected`), so both `null`
   * and the empty string mean "no restriction".
   */
  predicate IsActive(selected: Option<string>) {
    selected.Some? && selected.value != ""
  }

  /** The click handler `selected === clicked ? null : clicked`. */
  function Toggle(selected: Option<string>, clicked: string): (r: Option<string>) {
    if selected == Some(clicked) then None else Some(clicked)
  }

  /**
   * Clicking the selected entry clears the selection; clicking any other entry
   * selects it, replacing whatever was selected before.
   */
  lemma ToggleCases(selected: Option<string>, clicked: string)
    ensures selected == Some(clicked) ==> Toggle(selected, clicked) == None
    ensures selected != Some(clicked) ==> Toggle(selected, clicked) == Some(clicked)
    ensures IsActive(Toggle(selected, clicked)) <==> selected != Some(clicked) && clicked != ""
  {
  }

  /**
   * Clicking the same entry twice restores the state before the first click
   * when nothing, or that entry, was selected ...
   */
  lemma ToggleTwice(selected: Option<string>, clicked: string)
    requires selected == None || selected == Some(clicked)
    ensures Toggle(Toggle(selected, clicked), clicked) == selected
  {
  }

  /** ... but not when another entry was selected: then the selection is cleared. */
  lemma ToggleTwiceFromOther(selected: Option<string>, clicked: string)
    requires selected.Some? && selected.value != clicked
    ensures Toggle(Toggle(selected, clicked), clicked) == None
    ensures Toggle(Toggle(selected, clicked), clicked) != selected
  {
  }
}
