/** `attemptAction`: what one press of an action button sends, given the
    current selection. */
module ActionDispatch {
  import opened Wrappers
  import opened Protocol
  import opened CardSelection

  /** The alerts shown when a needed card is not selected. */
  const HintAttack := "Select a card from your hand first!"
  const HintDefendHand := "Select a card from your hand."
  const HintDefendTable := "Select the attack card on the table."

  /** The five actions the buttons offer. */
  const Actions: set<string> := {"skip", "take", "attack", "pass", "defend"}

  /** A press either sends exactly one message (and then the selection is
      cleared), or is refused with an alert, or names no known action. */
  datatype Outcome = Sent(msg: Message) | Rejected(hint: string) | Ignored

  function Dispatch(action: string, sel: Selection): (r: Outcome)
    // whatever is sent is a well-formed message named after the action
    ensures r.Sent? ==> r.msg.event == action && WellFormed(r.msg)
    // skip and take need no card and carry an empty payload
    ensures action in {"skip", "take"} ==> r == Sent(Message(action, NoFields))
    // attack and pass send the selected hand card, and need one
    ensures action in {"attack", "pass"} ==>
      && (r.Sent? <==> sel.hand.Some?)
      && (r.Sent? ==> r.msg.payload == CardFields(sel.hand.value.rank, sel.hand.value.suit))
      && (!r.Sent? ==> r == Rejected(HintAttack))
    // defend needs both cards: the attack from the table, the answer from the hand
    ensures action == "defend" ==>
      && (r.Sent? <==> sel.hand.Some? && sel.table.Some?)
      && (r.Sent? ==> r.msg.payload == DefendFields(sel.table.value.rank, sel.table.value.suit,
                                                     sel.hand.value.rank, sel.hand.value.suit))
      && (sel.hand.None? ==> r == Rejected(HintDefendHand))
      && (sel.hand.Some? && sel.table.None? ==> r == Rejected(HintDefendTable))
    // any other action string does nothing
    ensures action !in Actions ==> r == Ignored
  {
    if action == "skip" || action == "take" then
      Sent(Message(action, NoFields))
    else if action == "attack" || action == "pass" then
      match sel.hand
      case None => Rejected(HintAttack)
      case Some(h) => Sent(Message(action, CardFields(h.rank, h.suit)))
    else if action == "defend" then
      match (sel.hand, sel.table)
      case (None, _) => Rejected(HintDefendHand)
      case (Some(_), None) => Rejected(HintDefendTable)
      case (Some(h), Some(t)) => Sent(Message("defend", DefendFields(t.rank, t.suit, h.rank, h.suit)))
    else
      Ignored
  }

  /** Only a press that sends something depends on the selection's cards,
      and a refused press never happens for skip or take. */
  lemma {:induction false} RejectionNeedsMissingCard(action: string, sel: Selection)
    requires Dispatch(action, sel).Rejected?
    ensures action in {"attack", "pass", "defend"}
    ensures sel.hand.None? || (action == "defend" && sel.table.None?)
  {
  }

  /** With both cards selected every known action sends its message. */
  lemma {:induction false} FullSelectionAlwaysSends(action: string, sel: Selection)
    requires sel.hand.Some? && sel.table.Some?
    ensures action in Actions <==> Dispatch(action, sel).Sent?
  {
  }
}
