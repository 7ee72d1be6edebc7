/** Cards as the server sends them, the client's notion of "the same card",
    and the face a card is drawn with. */
module Cards {
  import opened Wrappers
  import Text

  /** A card: rank and suit are strings (the suit is one of ♠ ♥ ♦ ♣), and
      `display` is a ready-made label such as "10♠". An absent `display`
      reads as "" (the source falls back with `|| ""`). */
  datatype Card = Card(rank: string, suit: string, display: string)

  /** `isSameCard(c1, c2)`: both present and equal on rank and suit; the
      display label plays no part. */
  function IsSameCard(c1: Option<Card>, c2: Option<Card>): (same: bool)
    ensures same ==> c1.Some? && c2.Some?
    ensures c1.Some? && c2.Some? ==>
      (same <==> c1.value.rank == c2.value.rank && c1.value.suit == c2.value.suit)
  {
    c1.Some? && c2.Some? && c1.value.rank == c2.value.rank && c1.value.suit == c2.value.suit
  }

  /** Sameness is symmetric. */
  lemma IsSameCardSymmetric(c1: Option<Card>, c2: Option<Card>)
    ensures IsSameCard(c1, c2) == IsSameCard(c2, c1)
  {
  }

  /** On present cards sameness is an equivalence: every card is the same as
      itself, and sameness is transitive. */
  lemma IsSameCardEquivalence(a: Card, b: Card, c: Card)
    ensures IsSameCard(Some(a), Some(a))
    ensures IsSameCard(Some(a), Some(b)) && IsSameCard(Some(b), Some(c)) ==> IsSameCard(Some(a), Some(c))
  {
  }

  /** Relabelling a card does not change which card it is. */
  lemma IsSameCardIgnoresDisplay(c: Card, display: string)
    ensures IsSameCard(Some(c), Some(c.(display := display)))
  {
  }

  /** The suits drawn in red. */
  predicate IsRed(suit: string) {
    suit == "♥" || suit == "♦"
  }

  /** What `createCardElement` draws: the colour and the rank text that is
      left of the display label once the suit symbol is taken out of it. */
  datatype CardFace = CardFace(card: Card, red: bool, rankLabel: string)

  function Face(c: Card): (f: CardFace)
    ensures f.card == c
    ensures f.red <==> c.suit in {"♥", "♦"}
    ensures f.rankLabel == Text.RemoveFirst(c.display, c.suit)
  {
    CardFace(c, IsRed(c.suit), Text.RemoveFirst(c.display, c.suit))
  }

  /** For a card labelled the usual way, rank followed by a one-symbol suit
      that the rank does not contain, the face shows exactly the rank. */
  lemma FaceShowsRank(c: Card)
    requires c.display == c.rank + c.suit
    requires |c.suit| == 1 && c.suit[0] !in c.rank
    ensures Face(c).rankLabel == c.rank
  {
    Text.RemoveFirstOfSuffix(c.rank, c.suit);
  }
}
