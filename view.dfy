/** The render functions' derived data: what `renderGame`, `renderOpponents`,
    `renderTable`, `renderHand` and the lobby handler put on screen, computed
    from the snapshot, the player's name and the selection. */
module View {
  import opened Wrappers
  import opened Cards
  import opened Protocol
  import opened CardSelection

  // ---------------------------------------------------------------- header

  /** `name || '-'`: a missing or empty name shows as a dash. */
  function HeaderLabel(name: Option<string>): (shown: string)
    ensures shown != ""
    ensures name.Some? && name.value != "" ==> shown == name.value
    ensures name.None? || name.value == "" ==> shown == "-"
  {
    if name.Some? && name.value != "" then name.value else "-"
  }

  /** The trump corner: the trump card when there is one, otherwise the
      trump suit as text (`trump_suit || ""`). */
  datatype TrumpView = TrumpCard(face: CardFace) | TrumpText(text: string)

  function Trump(trumpCard: Option<Card>, trumpSuit: Option<string>): (t: TrumpView)
    ensures trumpCard.Some? <==> t.TrumpCard?
    ensures t.TrumpCard? ==> t.face == Face(trumpCard.value)
    ensures t.TrumpText? && trumpSuit.Some? ==> t.text == trumpSuit.value
    ensures t.TrumpText? && trumpSuit.None? ==> t.text == ""
  {
    match trumpCard
    case Some(c) => TrumpCard(Face(c))
    case None => TrumpText(trumpSuit.GetOr(""))
  }

  const YourTurn := "Your Turn to ATTACK"
  const DefendYourself := "DEFEND YOURSELF"
  const IsAttacking := " is attacking..."

  /** How a template literal prints a name the snapshot left `null`. */
  function NameText(name: Option<string>): string {
    name.GetOr("null")
  }

  /** The status line, by priority: the player's own attack turn, then the
      player's own defence, then whoever attacks. */
  function StatusText(attacker: Option<string>, defender: Option<string>, myName: string): (text: string)
    ensures attacker == Some(myName) ==> text == YourTurn
    ensures attacker != Some(myName) && defender == Some(myName) ==> text == DefendYourself
    ensures attacker != Some(myName) && defender != Some(myName) ==>
      text == NameText(attacker) + IsAttacking
  {
    if attacker == Some(myName) then YourTurn
    else if defender == Some(myName) then DefendYourself
    else NameText(attacker) + IsAttacking
  }

  // ------------------------------------------------------------- opponents

  /** One opponent badge: name, card count, and whether the player is one of
      the two whose turn it is. */
  datatype OpponentView = OpponentView(name: string, cardCount: int, active: bool)

  function OpponentOf(p: Player, attacker: Option<string>, defender: Option<string>): OpponentView {
    OpponentView(p.name, p.cardCount, attacker == Some(p.name) || defender == Some(p.name))
  }

  /** Every player but the viewer, in snapshot order; a badge is active
      exactly when its player attacks or defends. */
  function Opponents(players: seq<Player>, attacker: Option<string>, defender: Option<string>): (r: seq<OpponentView>)
    ensures |r| <= |players|
    ensures forall k :: 0 <= k < |r| ==>
      (r[k].active <==> (attacker == Some(r[k].name) || defender == Some(r[k].name)))
  {
    if players == [] then []
    else
      var rest := Opponents(players[1..], attacker, defender);
      if players[0].isMe then rest else [OpponentOf(players[0], attacker, defender)] + rest
  }

  /** Every badge is that of a player who is not the viewer. */
  lemma {:induction false} OpponentsSound(players: seq<Player>, attacker: Option<string>, defender: Option<string>, k: int)
    requires 0 <= k < |Opponents(players, attacker, defender)|
    ensures var r := Opponents(players, attacker, defender);
      exists i :: 0 <= i < |players| && !players[i].isMe && r[k] == OpponentOf(players[i], attacker, defender)
  {
    var rest := Opponents(players[1..], attacker, defender);
    if !players[0].isMe && k == 0 {
      assert Opponents(players, attacker, defender)[0] == OpponentOf(players[0], attacker, defender);
    } else {
      var k' := if players[0].isMe then k else k - 1;
      assert Opponents(players, attacker, defender)[k] == rest[k'];
      OpponentsSound(players[1..], attacker, defender, k');
      var i :| 0 <= i < |players[1..]| && !players[1..][i].isMe && rest[k'] == OpponentOf(players[1..][i], attacker, defender);
      assert players[i + 1] == players[1..][i];
    }
  }

  /** Conversely, every player who is not the viewer has a badge. */
  lemma {:induction false} OpponentsComplete(players: seq<Player>, attacker: Option<string>, defender: Option<string>, i: int)
    requires 0 <= i < |players| && !players[i].isMe
    ensures OpponentOf(players[i], attacker, defender) in Opponents(players, attacker, defender)
  {
    if i > 0 {
      OpponentsComplete(players[1..], attacker, defender, i - 1);
      assert players[1..][i - 1] == players[i];
    }
  }

  /** Badges follow the snapshot's order: the badges of two runs of players
      are the first run's badges followed by the second's. */
  lemma {:induction false} OpponentsAppend(xs: seq<Player>, ys: seq<Player>, attacker: Option<string>, defender: Option<string>)
    ensures Opponents(xs + ys, attacker, defender) == Opponents(xs, attacker, defender) + Opponents(ys, attacker, defender)
  {
    if xs == [] {
      assert xs + ys == ys;
    } else {
      assert (xs + ys)[1..] == xs[1..] + ys;
      OpponentsAppend(xs[1..], ys, attacker, defender);
    }
  }

  /** One player gives one badge, unless it is the viewer, who gets none. */
  lemma OpponentsOfOne(p: Player, attacker: Option<string>, defender: Option<string>)
    ensures Opponents([p], attacker, defender) == if p.isMe then [] else [OpponentOf(p, attacker, defender)]
  {
    assert [p][1..] == [];
  }

  // ----------------------------------------------------------------- table

  /** What the battlefield shows: a defended pair (attack card beaten by
      defence card), or an unanswered attack, highlighted when it is the
      selected table card. */
  datatype TableItem = DefendedPair(attack: CardFace, defense: CardFace) | OpenAttack(face: CardFace, selected: bool)

  /** `table_defense` read two at a time: entries 2k and 2k+1 form pair k,
      and an odd last entry has no partner. */
  function CardPairs(defense: seq<Card>): (r: seq<(Card, Card)>)
    ensures |r| == |defense| / 2
    ensures forall k :: 0 <= k < |r| ==> r[k] == (defense[2 * k], defense[2 * k + 1])
  {
    if |defense| < 2 then []
    else
      var rest := CardPairs(defense[2..]);
      var r := [(defense[0], defense[1])] + rest;
      forall k | 0 <= k < |r| ensures r[k] == (defense[2 * k], defense[2 * k + 1]) {
        if k > 0 {
          assert r[k] == rest[k - 1];
          assert defense[2..][2 * (k - 1)] == defense[2 * k];
          assert defense[2..][2 * (k - 1) + 1] == defense[2 * k + 1];
        }
      }
      r
  }

  /** The defended pairs drawn from `table_defense`: one per pair of
      entries, and an odd last entry is not shown. */
  function DefendedPairs(defense: seq<Card>): (r: seq<TableItem>)
    ensures |r| == |defense| / 2
    ensures forall k :: 0 <= k < |r| ==>
      r[k] == DefendedPair(Face(defense[2 * k]), Face(defense[2 * k + 1]))
  {
    var pairs := CardPairs(defense);
    seq(|pairs|, k requires 0 <= k < |pairs| => DefendedPair(Face(pairs[k].0), Face(pairs[k].1)))
  }

  /** The unanswered attacks in order, each highlighted exactly when it is
      the same card as the selected table card. */
  function OpenAttacks(attack: seq<Card>, selected: Option<Card>): (r: seq<TableItem>)
    ensures |r| == |attack|
    ensures forall k :: 0 <= k < |r| ==> r[k].OpenAttack? && r[k].face == Face(attack[k])
    ensures forall k :: 0 <= k < |r| ==> (r[k].selected <==> IsSameCard(Some(attack[k]), selected))
  {
    seq(|attack|, k requires 0 <= k < |attack| => OpenAttack(Face(attack[k]), IsSameCard(Some(attack[k]), selected)))
  }

  /** The whole battlefield: the defended pairs, then the open attacks. */
  function TableLayout(defense: seq<Card>, attack: seq<Card>, selected: Option<Card>): (r: seq<TableItem>)
    ensures |r| == |defense| / 2 + |attack|
    ensures forall k :: 0 <= k < |defense| / 2 ==>
      r[k] == DefendedPair(Face(defense[2 * k]), Face(defense[2 * k + 1]))
    ensures forall k :: |defense| / 2 <= k < |r| ==>
      r[k] == OpenAttack(Face(attack[k - |defense| / 2]), IsSameCard(Some(attack[k - |defense| / 2]), selected))
  {
    DefendedPairs(defense) + OpenAttacks(attack, selected)
  }

  /** A battlefield with two defended pairs and one trailing entry without
      a partner shows the two pairs only, in order. */
  lemma TableWithUnmatchedEntry(a1: Card, d1: Card, a2: Card, d2: Card, stray: Card)
    ensures TableLayout([a1, d1, a2, d2, stray], [], None) ==
      [DefendedPair(Face(a1), Face(d1)), DefendedPair(Face(a2), Face(d2))]
  {
    var r := TableLayout([a1, d1, a2, d2, stray], [], None);
    assert |r| == 2;
    assert r[0] == DefendedPair(Face(a1), Face(d1));
    assert r[1] == DefendedPair(Face(a2), Face(d2));
  }

  /** JavaScript's `a[i]`: `undefined` outside the array. */
  function At(a: seq<Card>, i: int): (r: Option<Card>)
    ensures r.Some? <==> 0 <= i < |a|
    ensures r.Some? ==> r.value == a[i]
  {
    if 0 <= i < |a| then Some(a[i]) else None
  }

  /** The first half of `renderTable`: walks `table_defense` two entries at
      a time and skips a pair with a missing half. */
  method RenderDefendedPairs(defCards: seq<Card>) returns (items: seq<TableItem>)
    ensures items == DefendedPairs(defCards)
  {
    items := [];
    var i := 0;
    while i < |defCards|
      invariant 0 <= i <= |defCards| + 1 && i % 2 == 0
      invariant |items| == (if i <= |defCards| then i else |defCards|) / 2
      invariant forall k :: 0 <= k < |items| ==>
        items[k] == DefendedPair(Face(defCards[2 * k]), Face(defCards[2 * k + 1]))
    {
      var attackC := At(defCards, i);
      var defendC := At(defCards, i + 1);
      if attackC.Some? && defendC.Some? {
        items := items + [DefendedPair(Face(attackC.value), Face(defendC.value))];
      }
      i := i + 2;
    }
  }

  /** The second half of `renderTable`: every open attack, highlighted when
      it is the same card as the selected table card. */
  method RenderOpenAttacks(attCards: seq<Card>, selectedTable: Option<Card>) returns (items: seq<TableItem>)
    ensures items == OpenAttacks(attCards, selectedTable)
  {
    items := [];
    var j := 0;
    while j < |attCards|
      invariant 0 <= j <= |attCards| && |items| == j
      invariant forall k :: 0 <= k < j ==>
        items[k] == OpenAttack(Face(attCards[k]), IsSameCard(Some(attCards[k]), selectedTable))
    {
      var card := attCards[j];
      var selected := selectedTable.Some? && IsSameCard(Some(card), selectedTable);
      items := items + [OpenAttack(Face(card), selected)];
      j := j + 1;
    }
  }

  /** `renderTable`: the battlefield of a snapshot (`table_defense || []`,
      `table_attack || []`) for the current table selection. */
  method RenderTable(state: GameState, selectedTable: Option<Card>) returns (items: seq<TableItem>)
    ensures items == TableLayout(state.tableDefense.GetOr([]), state.tableAttack.GetOr([]), selectedTable)
  {
    var pairs := RenderDefendedPairs(state.tableDefense.GetOr([]));
    var attacks := RenderOpenAttacks(state.tableAttack.GetOr([]), selectedTable);
    items := pairs + attacks;
  }

  // ------------------------------------------------------------------ hand

  /** `players.find(p => p.is_me)`: the first player marked as the viewer. */
  function FindMe(players: seq<Player>): (r: Option<Player>)
    ensures r.None? <==> forall i :: 0 <= i < |players| ==> !players[i].isMe
    ensures r.Some? ==> r.value.isMe
    ensures r.Some? ==>
      exists i :: 0 <= i < |players| && players[i] == r.value && forall j :: 0 <= j < i ==> !players[j].isMe
  {
    if players == [] then None
    else if players[0].isMe then Some(players[0])
    else
      var r := FindMe(players[1..]);
      assert r.Some? ==> exists i :: 0 <= i < |players| && players[i] == r.value && forall j :: 0 <= j < i ==> !players[j].isMe
      by {
        if r.Some? {
          var i :| 0 <= i < |players[1..]| && players[1..][i] == r.value && forall j :: 0 <= j < i ==> !players[1..][j].isMe;
          assert players[i + 1] == r.value;
          assert forall j :: 0 <= j < i + 1 ==> !players[j].isMe by {
            forall j | 0 <= j < i + 1 ensures !players[j].isMe {
              if j > 0 { assert players[j] == players[1..][j - 1]; }
            }
          }
        }
      }
      assert r.None? ==> forall i :: 0 <= i < |players| ==> !players[i].isMe by {
        if r.None? {
          forall i | 0 <= i < |players| ensures !players[i].isMe {
            if i > 0 { assert players[i] == players[1..][i - 1]; }
          }
        }
      }
      r
  }

  /** One card of the viewer's hand, highlighted when it is the selected
      hand card. */
  datatype HandItem = HandItem(face: CardFace, selected: bool)

  /** The viewer's own cards; nothing when the viewer or the viewer's hand is
      missing from the snapshot. */
  function HandView(players: seq<Player>, selectedHand: Option<Card>): (r: seq<HandItem>)
    ensures (FindMe(players).None? || FindMe(players).value.hand.None?) ==> r == []
    ensures FindMe(players).Some? && FindMe(players).value.hand.Some? ==>
      var hand := FindMe(players).value.hand.value;
      && |r| == |hand|
      && (forall k :: 0 <= k < |r| ==> r[k].face == Face(hand[k]))
      && (forall k :: 0 <= k < |r| ==> (r[k].selected <==> IsSameCard(Some(hand[k]), selectedHand)))
  {
    match FindMe(players)
    case None => []
    case Some(me) =>
      match me.hand
      case None => []
      case Some(hand) =>
        seq(|hand|, k requires 0 <= k < |hand| =>
          HandItem(Face(hand[k]), selectedHand.Some? && IsSameCard(Some(hand[k]), selectedHand)))
  }

  /** When no two cards of the hand are the same card, at most one of them is
      highlighted. */
  lemma {:induction false} HandHighlightUnique(players: seq<Player>, selectedHand: Option<Card>, k1: int, k2: int)
    requires FindMe(players).Some? && FindMe(players).value.hand.Some?
    requires var hand := FindMe(players).value.hand.value;
      forall a, b :: 0 <= a < b < |hand| ==> !IsSameCard(Some(hand[a]), Some(hand[b]))
    requires 0 <= k1 < |HandView(players, selectedHand)| && 0 <= k2 < |HandView(players, selectedHand)|
    requires HandView(players, selectedHand)[k1].selected && HandView(players, selectedHand)[k2].selected
    ensures k1 == k2
  {
    var hand := FindMe(players).value.hand.value;
    var c := selectedHand.value;
    if k1 < k2 {
      IsSameCardEquivalence(hand[k1], c, hand[k2]);
      IsSameCardSymmetric(Some(hand[k2]), selectedHand);
      assert false;
    } else if k2 < k1 {
      IsSameCardEquivalence(hand[k2], c, hand[k1]);
      IsSameCardSymmetric(Some(hand[k1]), selectedHand);
      assert false;
    }
  }

  // ------------------------------------------------------------ whole view

  /** Everything `renderGame` shows for one snapshot. */
  datatype GameView = GameView(
    trump: TrumpView,
    deckCount: int,
    attackerLabel: string,
    defenderLabel: string,
    status: string,
    opponents: seq<OpponentView>,
    table: seq<TableItem>,
    hand: seq<HandItem>)

  /** `renderGame`: a function of the snapshot, the player's name and the
      selection alone. The header labels are never blank, the status line,
      trump corner and opponent badges are those of the snapshot, the
      battlefield has one entry per defended pair and per open attack, and
      exactly the cards that are the selected ones are highlighted. */
  function Render(state: GameState, myName: string, sel: Selection): (v: GameView)
    ensures v.deckCount == state.deckCount
    ensures v.attackerLabel != "" && v.defenderLabel != ""
    ensures |v.table| == |state.tableDefense.GetOr([])| / 2 + |state.tableAttack.GetOr([])|
    ensures v.trump == Trump(state.trumpCard, state.trumpSuit)
    ensures v.attackerLabel == HeaderLabel(state.activeAttackerName)
    ensures v.defenderLabel == HeaderLabel(state.defenderName)
    ensures v.status == StatusText(state.activeAttackerName, state.defenderName, myName)
    ensures v.opponents == Opponents(state.players, state.activeAttackerName, state.defenderName)
    ensures v.table == TableLayout(state.tableDefense.GetOr([]), state.tableAttack.GetOr([]), sel.table)
    ensures v.hand == HandView(state.players, sel.hand)
    ensures forall k :: 0 <= k < |v.table| ==>
      (v.table[k].OpenAttack? <==> k >= |state.tableDefense.GetOr([])| / 2)
    ensures forall k :: 0 <= k < |v.table| && v.table[k].OpenAttack? ==>
      (v.table[k].selected <==> IsSameCard(Some(v.table[k].face.card), sel.table))
    ensures forall k :: 0 <= k < |v.hand| ==>
      (v.hand[k].selected <==> IsSameCard(Some(v.hand[k].face.card), sel.hand))
  {
    GameView(
      Trump(state.trumpCard, state.trumpSuit),
      state.deckCount,
      HeaderLabel(state.activeAttackerName),
      HeaderLabel(state.defenderName),
      StatusText(state.activeAttackerName, state.defenderName, myName),
      Opponents(state.players, state.activeAttackerName, state.defenderName),
      TableLayout(state.tableDefense.GetOr([]), state.tableAttack.GetOr([]), sel.table),
      HandView(state.players, sel.hand))
  }

  // ----------------------------------------------------------------- lobby

  /** The lobby roster and whether the game can start. */
  datatype LobbyView = LobbyView(entries: seq<string>, ready: bool, status: string)

  const ReadyText := "Ready to begin."
  const WaitingText := "Waiting for more players..."

  /** `lobby_update`: `players || []` listed in order, the viewer's own entry
      marked " (You)"; ready (start button shown) exactly when at least two
      players are in the room. */
  function Lobby(players: Option<seq<string>>, myName: string): (v: LobbyView)
    ensures var roster := players.GetOr([]);
      && |v.entries| == |roster|
      && (forall i :: 0 <= i < |roster| ==>
            v.entries[i] == (if roster[i] == myName then roster[i] + " (You)" else roster[i]))
      && (v.ready <==> |roster| >= 2)
      && v.status == (if |roster| >= 2 then ReadyText else WaitingText)
  {
    var roster := players.GetOr([]);
    LobbyView(
      seq(|roster|, i requires 0 <= i < |roster| => if roster[i] == myName then roster[i] + " (You)" else roster[i]),
      |roster| >= 2,
      if |roster| >= 2 then ReadyText else WaitingText)
  }
}
