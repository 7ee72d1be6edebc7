/** The data exchanged with the game server: the snapshot the client
    receives on `game_update`, and the messages it emits. */
module Protocol {
  import opened Wrappers
  import opened Cards
  import Text

  /** One entry of `players`; `hand` is only present for the viewing player. */
  datatype Player = Player(name: string, isMe: bool, cardCount: int, hand: Option<seq<Card>>)

  /** A `game_update` snapshot. Fields the server may leave out are optional;
      `table_defense` holds attack/defence pairs flattened into one list. */
  datatype GameState = GameState(
    players: seq<Player>,
    trumpCard: Option<Card>,
    trumpSuit: Option<string>,
    deckCount: int,
    tableAttack: Option<seq<Card>>,
    tableDefense: Option<seq<Card>>,
    activeAttackerName: Option<string>,
    defenderName: Option<string>)

  /** The payload objects of `socket.emit`. */
  datatype Payload =
    | NoFields
    | CardFields(rank: string, suit: string)
    | DefendFields(attackRank: string, attackSuit: string, defendRank: string, defendSuit: string)
    | JoinFields(room: string, name: string, userId: string)

  /** One `socket.emit(event, payload)`. */
  datatype Message = Message(event: string, payload: Payload)

  /** A player name as the login form accepts it: trimmed and not empty. */
  predicate IsLoginName(name: string) {
    name != "" && Text.IsTrimmed(name)
  }

  /** A room id as the login form accepts it: trimmed, lower-case, not empty. */
  predicate IsRoomId(room: string) {
    room != "" && Text.IsTrimmed(room) && Text.IsLower(room)
  }

  /** The shape every outbound message of this client has: a known event
      with the payload that event carries. */
  predicate WellFormed(m: Message) {
    if m.event == "join_game" then
      m.payload.JoinFields? && IsLoginName(m.payload.name) && IsRoomId(m.payload.room)
    else if m.event in {"start_game", "restart_game", "skip", "take"} then
      m.payload == NoFields
    else if m.event in {"attack", "pass"} then
      m.payload.CardFields?
    else if m.event == "defend" then
      m.payload.DefendFields?
    else
      false
  }
}
