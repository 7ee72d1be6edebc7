/** The selection: at most one hand card and one table card, each changed
    by a click that toggles it. */
module CardSelection {
  import opened Wrappers
  import opened Cards

  datatype Selection = Selection(hand: Option<Card>, table: Option<Card>)

  /** What `resetSelection` leaves behind. */
  const NoSelection := Selection(None, None)

  /** The click rule `(selected && isSameCard(card, selected)) ? null : card`:
      clicking the selected card (or one the same as it) clears the
      selection, clicking anything else selects that card. */
  function Toggle(selected: Option<Card>, card: Card): (r: Option<Card>)
    ensures IsSameCard(Some(card), selected) ==> r == None
    ensures !IsSameCard(Some(card), selected) ==> r == Some(card)
  {
    if selected.Some? && IsSameCard(Some(card), selected) then None else Some(card)
  }

  /** A click on a hand card: toggles the hand selection; the table
      selection is untouched. */
  function ClickHand(sel: Selection, card: Card): (r: Selection)
    ensures r.table == sel.table
    ensures r.hand == None <==> IsSameCard(Some(card), sel.hand)
    ensures r.hand != None ==> r.hand == Some(card)
  {
    sel.(hand := Toggle(sel.hand, card))
  }

  /** A click on a table card: only the defender may select one. Otherwise
      nothing changes; for the defender the table selection toggles and the
      hand selection is untouched. */
  function ClickTable(sel: Selection, card: Card, isDefender: bool): (r: Selection)
    ensures !isDefender ==> r == sel
    ensures r.hand == sel.hand
    ensures isDefender ==> (r.table == None <==> IsSameCard(Some(card), sel.table))
    ensures isDefender && r.table != None ==> r.table == Some(card)
  {
    if !isDefender then sel else sel.(table := Toggle(sel.table, card))
  }

  /** Clicking a card twice leaves it selected if it (or a card the same as
      it) was selected before, and leaves nothing selected otherwise. */
  lemma {:induction false} DoubleToggle(selected: Option<Card>, card: Card)
    ensures Toggle(Toggle(selected, card), card) ==
      (if IsSameCard(Some(card), selected) then Some(card) else None)
  {
    IsSameCardEquivalence(card, card, card);
  }

  /** So two clicks on one card restore the selection exactly when nothing
      or that very card was selected before. */
  lemma {:induction false} DoubleToggleRestores(selected: Option<Card>, card: Card)
    ensures Toggle(Toggle(selected, card), card) == selected <==>
      (selected == None || selected == Some(card))
  {
    DoubleToggle(selected, card);
  }

  /** A double click on a hand card never disturbs the table selection, and
      restores the whole selection when no hand card was selected. */
  lemma {:induction false} DoubleClickHand(sel: Selection, card: Card)
    ensures ClickHand(ClickHand(sel, card), card).table == sel.table
    ensures sel.hand == None ==> ClickHand(ClickHand(sel, card), card) == sel
  {
    DoubleToggle(sel.hand, card);
  }
}
