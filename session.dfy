/** The client's session: the stored player id, the login form, and the
    module-level state that the socket handlers, the buttons and the card
    clicks update. */
module Session {
  import opened Wrappers
  import opened Cards
  import opened Protocol
  import opened CardSelection
  import opened ActionDispatch
  import opened View
  import Text

  // -------------------------------------------------------------- identity

  /** The local-storage key under which the player id is kept. */
  const UserIdKey := "budallas_userId"

  /** Reads the stored id; when there is none (or it is empty) takes the
      freshly generated `freshId` and stores it. Returns the id and the new
      storage. */
  function LoadUserId(storage: map<string, string>, freshId: string): (r: (string, map<string, string>))
    ensures UserIdKey in storage && storage[UserIdKey] != "" ==> r == (storage[UserIdKey], storage)
    ensures !(UserIdKey in storage && storage[UserIdKey] != "") ==>
      r.0 == freshId && r.1 == storage[UserIdKey := freshId]
  {
    if UserIdKey in storage && storage[UserIdKey] != "" then (storage[UserIdKey], storage)
    else (freshId, storage[UserIdKey := freshId])
  }

  /** Once an id has been handed out, every later page load (with whatever
      fresh id) gets the same id back and leaves storage as it is. */
  lemma {:induction false} UserIdStable(storage: map<string, string>, freshId: string, laterId: string)
    requires freshId != ""
    ensures var (id, stored) := LoadUserId(storage, freshId);
      LoadUserId(stored, laterId) == (id, stored)
  {
  }

  // ----------------------------------------------------------------- login

  const EnterBoth := "Please enter both Name and Room ID"

  /** The login form: the name trimmed, the room trimmed and lower-cased;
      refused with an alert when either comes out empty. */
  datatype Login = LoggedIn(name: string, room: string) | LoginRefused(alert: string)

  function NormalizeLogin(nameInput: string, roomInput: string): (r: Login)
    ensures r.LoginRefused? ==> r.alert == EnterBoth
    ensures r.LoggedIn? ==> IsLoginName(r.name) && IsRoomId(r.room)
  {
    var name := Text.Trim(nameInput);
    var room := Text.ToLower(Text.Trim(roomInput));
    if name == "" || room == "" then LoginRefused(EnterBoth)
    else
      Text.ToLowerKeepsTrimmed(Text.Trim(roomInput));
      LoggedIn(name, room)
  }

  /** The form is refused exactly when the name or the room is blank (empty
      or white space only); what it accepts is the trimmed name and the
      trimmed room, lower-cased. */
  lemma {:induction false} NormalizeLoginAccepts(nameInput: string, roomInput: string)
    ensures NormalizeLogin(nameInput, roomInput).LoggedIn? <==>
      !Text.AllSpace(nameInput) && !Text.AllSpace(roomInput)
    ensures NormalizeLogin(nameInput, roomInput).LoggedIn? ==>
      NormalizeLogin(nameInput, roomInput).name == Text.Trim(nameInput) &&
      NormalizeLogin(nameInput, roomInput).room == Text.ToLower(Text.Trim(roomInput))
  {
  }

  /** Names the form accepted are accepted again unchanged: normalising is
      idempotent. */
  lemma {:induction false} NormalizeLoginIdempotent(nameInput: string, roomInput: string)
    requires NormalizeLogin(nameInput, roomInput).LoggedIn?
    ensures var r := NormalizeLogin(nameInput, roomInput);
      NormalizeLogin(r.name, r.room) == r
  {
    var r := NormalizeLogin(nameInput, roomInput);
    Text.TrimOfTrimmed(r.name);
    Text.TrimOfTrimmed(r.room);
    Text.ToLowerOfLower(r.room);
  }

  // ---------------------------------------------------------- client state

  /** The four screens; each is shown or hidden on its own. */
  datatype Screen = LoginScreen | LobbyScreen | GameScreen | GameOverScreen

  /** All of the client's mutable state at once: the latest snapshot, the
      names from the login form, the selection, the screens not marked
      hidden, the game-over text and every message emitted so far. */
  datatype ClientState = ClientState(
    gameState: Option<GameState>,
    myName: string,
    myRoom: string,
    selection: Selection,
    visible: set<Screen>,
    gameOverMessage: string,
    outbox: seq<Message>)

  /** Page load: nothing but the login overlay. */
  const Initial := ClientState(None, "", "", NoSelection, {LoginScreen}, "", [])

  /** What holds between events: once past the login overlay the name and
      room are as the form accepts them, the game screen only shows with a
      snapshot to draw, and everything sent is a well-formed message. */
  predicate Invariant(st: ClientState) {
    && (LoginScreen !in st.visible ==> IsLoginName(st.myName) && IsRoomId(st.myRoom))
    && (GameScreen in st.visible ==> st.gameState.Some?)
    && (forall k :: 0 <= k < |st.outbox| ==> WellFormed(st.outbox[k]))
  }

  /** The join button. A refused form changes nothing; otherwise the
      normalised name and room are kept, the lobby replaces the login
      overlay and `join_game` goes out with the stored id. `login` is the
      form as `NormalizeLogin` reads it. */
  function JoinStep(st: ClientState, login: Login, userId: string): ClientState {
    match login
    case LoginRefused(_) => st
    case LoggedIn(name, room) =>
      st.(myName := name, myRoom := room,
          visible := st.visible - {LoginScreen} + {LobbyScreen},
          outbox := st.outbox + [Message("join_game", JoinFields(room, name, userId))])
  }

  /** The start button: asks the server to deal. */
  function StartStep(st: ClientState): ClientState {
    st.(outbox := st.outbox + [Message("start_game", NoFields)])
  }

  /** `game_update`: the snapshot replaces the previous one wholesale (the
      selection is kept as it is), and the game screen takes over from a
      shown lobby or game-over screen. */
  function GameUpdateStep(st: ClientState, state: GameState): ClientState {
    st.(gameState := Some(state),
        visible := if LobbyScreen in st.visible || GameOverScreen in st.visible
                   then st.visible - {LobbyScreen, GameOverScreen} + {GameScreen}
                   else st.visible)
  }

  /** `game_over`: shows the final message on the game-over screen, over
      whatever is shown already. */
  function GameOverStep(st: ClientState, message: string): ClientState {
    st.(gameOverMessage := message, visible := st.visible + {GameOverScreen})
  }

  /** The restart button, given the answer to its confirmation dialog. */
  function RestartStep(st: ClientState, confirmed: bool): ClientState {
    if confirmed then
      st.(outbox := st.outbox + [Message("restart_game", NoFields)],
          visible := st.visible - {GameOverScreen})
    else st
  }

  /** An action button: a press that is sent appends its one message and
      clears the selection; any other press changes nothing. */
  function ActionStep(st: ClientState, action: string): ClientState {
    match Dispatch(action, st.selection)
    case Sent(msg) => st.(outbox := st.outbox + [msg], selection := NoSelection)
    case _ => st
  }

  /** A click on a hand card. */
  function HandClickStep(st: ClientState, card: Card): ClientState {
    st.(selection := ClickHand(st.selection, card))
  }

  /** A click on an open attack: only the defender's clicks count. */
  function TableClickStep(st: ClientState, card: Card): ClientState
    requires st.gameState.Some?
  {
    st.(selection := ClickTable(st.selection, card, st.gameState.value.defenderName == Some(st.myName)))
  }

  /** Appending well-formed messages keeps the outbox well-formed. */
  lemma {:induction false} AppendWellFormed(outbox: seq<Message>, msg: Message)
    requires forall k :: 0 <= k < |outbox| ==> WellFormed(outbox[k])
    requires WellFormed(msg)
    ensures forall k :: 0 <= k < |outbox + [msg]| ==> WellFormed((outbox + [msg])[k])
  {
    forall k | 0 <= k < |outbox + [msg]| ensures WellFormed((outbox + [msg])[k]) {
      if k < |outbox| { assert (outbox + [msg])[k] == outbox[k]; }
    }
  }

  /** Every event keeps the invariant, starting from page load. */
  lemma InitialInvariant()
    ensures Invariant(Initial)
  {
  }

  lemma {:induction false} JoinKeepsInvariant(st: ClientState, login: Login, userId: string)
    requires Invariant(st)
    requires login.LoggedIn? ==> IsLoginName(login.name) && IsRoomId(login.room)
    ensures Invariant(JoinStep(st, login, userId))
  {
    if login.LoggedIn? {
      var msg := Message("join_game", JoinFields(login.room, login.name, userId));
      assert WellFormed(msg);
      AppendWellFormed(st.outbox, msg);
    }
  }

  lemma {:induction false} StartKeepsInvariant(st: ClientState)
    requires Invariant(st)
    ensures Invariant(StartStep(st))
  {
    AppendWellFormed(st.outbox, Message("start_game", NoFields));
  }

  lemma {:induction false} GameUpdateKeepsInvariant(st: ClientState, state: GameState)
    requires Invariant(st)
    ensures Invariant(GameUpdateStep(st, state))
  {
  }

  lemma {:induction false} GameOverKeepsInvariant(st: ClientState, message: string)
    requires Invariant(st)
    ensures Invariant(GameOverStep(st, message))
  {
  }

  lemma {:induction false} RestartKeepsInvariant(st: ClientState, confirmed: bool)
    requires Invariant(st)
    ensures Invariant(RestartStep(st, confirmed))
  {
    if confirmed { AppendWellFormed(st.outbox, Message("restart_game", NoFields)); }
  }

  lemma {:induction false} ActionKeepsInvariant(st: ClientState, action: string)
    requires Invariant(st)
    ensures Invariant(ActionStep(st, action))
  {
    match Dispatch(action, st.selection)
    case Sent(msg) => AppendWellFormed(st.outbox, msg);
    case _ =>
  }

  lemma {:induction false} ClicksKeepInvariant(st: ClientState, card: Card)
    requires Invariant(st)
    ensures Invariant(HandClickStep(st, card))
    ensures st.gameState.Some? ==> Invariant(TableClickStep(st, card))
  {
  }

  /** The outbox only grows: an action press sends at most one message and
      never rewrites what was sent before; the snapshot, names and screens
      are untouched. */
  lemma {:induction false} ActionAppendsAtMostOne(st: ClientState, action: string)
    ensures var st' := ActionStep(st, action);
      && st'.outbox[..|st.outbox|] == st.outbox
      && |st.outbox| <= |st'.outbox| <= |st.outbox| + 1
      && st' == st.(outbox := st'.outbox, selection := st'.selection)
  {
    match Dispatch(action, st.selection)
    case Sent(msg) =>
      assert (st.outbox + [msg])[..|st.outbox|] == st.outbox;
    case _ =>
  }

  /** The selection is cleared exactly when a message goes out, and a refused
      press keeps it whole. */
  lemma {:induction false} ActionClearsSelectionIffSent(st: ClientState, action: string)
    ensures var st' := ActionStep(st, action);
      && (|st'.outbox| == |st.outbox| + 1 ==> st'.selection == NoSelection)
      && (|st'.outbox| == |st.outbox| ==> st' == st)
  {
  }

  /** With no hand card selected (whatever table card is), selecting a hand
      card and pressing attack sends that card's rank and suit, once, and
      leaves nothing selected. */
  lemma {:induction false} SelectThenAttack(st: ClientState, card: Card)
    requires st.selection.hand == None
    ensures var st' := ActionStep(HandClickStep(st, card), "attack");
      st'.outbox == st.outbox + [Message("attack", CardFields(card.rank, card.suit))]
      && st'.selection == NoSelection
  {
    assert HandClickStep(st, card).selection.hand == Some(card);
  }

  // ---------------------------------------------------------------- client

  /** The module-level variables of the client, updated in place by the
      socket handlers, the buttons and the card clicks. */
  class Client {
    var gameState: Option<GameState>
    var myName: string
    var myRoom: string
    var selectedHandCard: Option<Card>
    var selectedTableCard: Option<Card>
    /** The screens not marked hidden. */
    var visible: set<Screen>
    var gameOverMessage: string
    /** Every message emitted on the socket, oldest first. */
    var outbox: seq<Message>
    /** The player id read from (or just written to) local storage. */
    const userId: string
    /** Local storage as page load leaves it. */
    const storage: map<string, string>

    function State(): ClientState
      reads this
    {
      ClientState(gameState, myName, myRoom, Selection(selectedHandCard, selectedTableCard),
                  visible, gameOverMessage, outbox)
    }

    ghost predicate Valid()
      reads this
    {
      Invariant(State())
    }

    /** Page load, given local storage and the id `crypto.randomUUID` would
        generate: the stored id is taken, or the fresh one is stored. */
    constructor (storage: map<string, string>, freshId: string)
      ensures Valid()
      ensures State() == Initial
      ensures (userId, this.storage) == LoadUserId(storage, freshId)
    {
      var loaded := LoadUserId(storage, freshId);
      gameState := None;
      myName, myRoom := "", "";
      selectedHandCard, selectedTableCard := None, None;
      visible := {LoginScreen};
      gameOverMessage := "";
      outbox := [];
      userId, this.storage := loaded.0, loaded.1;
    }

    /** The join button; the alert is shown exactly when the form is refused. */
    method Join(nameInput: string, roomInput: string) returns (alert: Option<string>)
      requires Valid()
      modifies this
      ensures Valid()
      ensures State() == JoinStep(old(State()), NormalizeLogin(nameInput, roomInput), userId)
      ensures alert == if NormalizeLogin(nameInput, roomInput).LoginRefused? then Some(EnterBoth) else None
    {
      var login := NormalizeLogin(nameInput, roomInput);
      alert := EnterRoom(login);
    }

    /** What the join button does with the form once it has been read. */
    method EnterRoom(login: Login) returns (alert: Option<string>)
      requires Valid()
      requires login.LoggedIn? ==> IsLoginName(login.name) && IsRoomId(login.room)
      modifies this
      ensures Valid()
      ensures State() == JoinStep(old(State()), login, userId)
      ensures alert == if login.LoginRefused? then Some(login.alert) else None
    {
      JoinKeepsInvariant(State(), login, userId);
      if login.LoginRefused? {
        return Some(login.alert);
      }
      myName := login.name;
      myRoom := login.room;
      visible := visible - {LoginScreen} + {LobbyScreen};
      outbox := outbox + [Message("join_game", JoinFields(login.room, login.name, userId))];
      alert := None;
    }

    method StartGame()
      requires Valid()
      modifies this
      ensures Valid()
      ensures State() == StartStep(old(State()))
    {
      StartKeepsInvariant(State());
      outbox := outbox + [Message("start_game", NoFields)];
    }

    method GameUpdate(state: GameState)
      requires Valid()
      modifies this
      ensures Valid()
      ensures State() == GameUpdateStep(old(State()), state)
    {
      GameUpdateKeepsInvariant(State(), state);
      gameState := Some(state);
      if LobbyScreen in visible || GameOverScreen in visible {
        visible := visible - {LobbyScreen, GameOverScreen} + {GameScreen};
      }
    }

    method GameOver(message: string)
      requires Valid()
      modifies this
      ensures Valid()
      ensures State() == GameOverStep(old(State()), message)
    {
      GameOverKeepsInvariant(State(), message);
      gameOverMessage := message;
      visible := visible + {GameOverScreen};
    }

    method RestartGame(confirmed: bool)
      requires Valid()
      modifies this
      ensures Valid()
      ensures State() == RestartStep(old(State()), confirmed)
    {
      RestartKeepsInvariant(State(), confirmed);
      if confirmed {
        outbox := outbox + [Message("restart_game", NoFields)];
        visible := visible - {GameOverScreen};
      }
    }

    /** `resetSelection`: nothing selected any more. */
    method ResetSelection()
      modifies this
      ensures State() == old(State()).(selection := NoSelection)
    {
      selectedHandCard := None;
      selectedTableCard := None;
    }

    /** `attemptAction`, written as the source writes it; the outcome is the
        one `Dispatch` gives for the selection at the time of the press. */
    method AttemptAction(action: string) returns (outcome: Outcome)
      requires Valid()
      modifies this
      ensures Valid()
      ensures outcome == Dispatch(action, old(State()).selection)
      ensures State() == ActionStep(old(State()), action)
    {
      ActionKeepsInvariant(State(), action);
      if action == "skip" {
        outbox := outbox + [Message("skip", NoFields)];
        ResetSelection();
        return Sent(Message("skip", NoFields));
      }
      if action == "take" {
        outbox := outbox + [Message("take", NoFields)];
        ResetSelection();
        return Sent(Message("take", NoFields));
      }
      outcome := Ignored;
      if action == "attack" || action == "pass" {
        if selectedHandCard.None? {
          return Rejected(HintAttack);
        }
        var msg := Message(action, CardFields(selectedHandCard.value.rank, selectedHandCard.value.suit));
        outbox := outbox + [msg];
        ResetSelection();
        outcome := Sent(msg);
      }
      if action == "defend" {
        if selectedHandCard.None? {
          return Rejected(HintDefendHand);
        }
        if selectedTableCard.None? {
          return Rejected(HintDefendTable);
        }
        var msg := Message("defend", DefendFields(
          selectedTableCard.value.rank, selectedTableCard.value.suit,
          selectedHandCard.value.rank, selectedHandCard.value.suit));
        outbox := outbox + [msg];
        ResetSelection();
        outcome := Sent(msg);
      }
    }

    /** The click handler `renderHand` puts on each hand card. */
    method ClickHandCard(card: Card)
      requires Valid()
      modifies this
      ensures Valid()
      ensures State() == HandClickStep(old(State()), card)
    {
      ClicksKeepInvariant(State(), card);
      selectedHandCard := if selectedHandCard.Some? && IsSameCard(Some(card), selectedHandCard) then None else Some(card);
    }

    /** The click handler `renderTable` puts on each open attack. Cards are
        only on screen once a snapshot has been drawn. */
    method ClickTableCard(card: Card)
      requires Valid() && gameState.Some?
      modifies this
      ensures Valid()
      ensures State() == TableClickStep(old(State()), card)
    {
      ClicksKeepInvariant(State(), card);
      if gameState.value.defenderName != Some(myName) {
        return;
      }
      selectedTableCard := if selectedTableCard.Some? && IsSameCard(Some(card), selectedTableCard) then None else Some(card);
    }

    /** `renderGame`: nothing before the first snapshot, afterwards the view
        of the current snapshot, name and selection. */
    function CurrentView(): (v: Option<GameView>)
      reads this
      ensures v.Some? <==> gameState.Some?
      ensures v.Some? ==> v.value == Render(gameState.value, myName, State().selection)
    {
      match gameState
      case None => None
      case Some(state) => Some(Render(state, myName, Selection(selectedHandCard, selectedTableCard)))
    }
  }
}
