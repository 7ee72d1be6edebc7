# Budallas client: the interaction core

A Dafny model of the browser client of a multiplayer "Durak"-style card game
(`js/client.js`). The client receives authoritative game snapshots from the
server, keeps a small piece of local interaction state (which hand card and
which table card the player has selected), turns button presses into protocol
messages, and derives what the screen shows from the snapshot, the player's
name and the selection.

The model is organised as the client is:

- `wrappers.dfy` (`Wrappers`): `Option`, the reading of a JavaScript value that
  may be `null` or `undefined`.
- `text.dfy` (`Text`): the string built-ins the client relies on: `trim` (the
  full ECMAScript whitespace set), `toLowerCase`, and `replace` with a string
  pattern (first occurrence only).
- `cards.dfy` (`Cards`): the card record, `isSameCard`, and the face
  `createCardElement` draws (colour and rank text).
- `protocol.dfy` (`Protocol`): the `game_update` snapshot, the outbound
  messages, and the shape every outbound message has.
- `selection.dfy` (`CardSelection`): the click toggles on hand and table cards.
- `dispatch.dfy` (`ActionDispatch`): `attemptAction` as a function from action
  name and selection to "send this one message", "refuse with this alert" or
  "ignore".
- `view.dfy` (`View`): the derived data of `renderGame`, `renderOpponents`,
  `renderTable`,
  `renderHand` and the lobby handler. The two loops of `renderTable` are
  the methods `RenderDefendedPairs` and `RenderOpenAttacks`.
- `session.dfy` (`Session`): the stored player id, the login form, each event
  as a step function on the client's whole state, the invariant every step
  keeps, and the class `Client` whose fields are the module-level variables of
  the source and whose methods are its handlers, each proved equal to its step.

Emitting on the socket is modelled as appending to the `outbox` sequence; an
`alert` is a returned rejection or alert text. The screens are the set of
screens not marked hidden: the source shows and hides each one separately (for
example `game_over` shows its screen without hiding the game screen).

Behaviour of this client a reader might not expect:

- A new snapshot does not clear a selection that no longer matches a card on
  the table or in the hand. `game_update` only replaces the snapshot and
  switches screens.
- This client has no spectator mode, no winners list and no timer that returns
  from the game-over screen to the lobby.
- Clicking the same card twice does not always restore the earlier selection.
  It restores it only when nothing, or exactly that card, was selected before.
  If a different card was selected, two clicks leave nothing selected
  (`CardSelection.DoubleToggleRestores`).
- An odd trailing entry of `table_defense` is not drawn at all. It is not shown
  as an open attack either (`View.DefendedPairs`, `View.TableWithUnmatchedEntry`).

## Model

| member | source | states |
|---|---|---|
| `Text.TrimStart` | js/client.js:56-57 | the leading whitespace is dropped: result is a suffix, all dropped characters are whitespace, result does not start with whitespace |
| `Text.TrimEnd` | js/client.js:56-57 | the trailing whitespace is dropped: result is a prefix, all dropped characters are whitespace, result does not end with whitespace |
| `Text.Trim` | js/client.js:56-57 | `trim()` gives a middle slice of the input with only whitespace before and after it, leaves no whitespace at either end, and is empty exactly when the input was all whitespace |
| `Text.TrimOfTrimmed` | js/client.js:56-57 | trimming a trimmed string changes nothing (trim is idempotent) |
| `Text.ToLower` | js/client.js:57 | `toLowerCase()` keeps the length, turns every ASCII capital into its small letter, keeps every other character, leaves no ASCII capital and keeps whitespace as whitespace |
| `Text.ToLowerOfLower` | js/client.js:57 | lower-casing a lower-case string changes nothing |
| `Text.ToLowerKeepsTrimmed` | js/client.js:57 | lower-casing a trimmed room id keeps it trimmed |
| `Text.IndexOfFrom` | js/client.js:290 | the search for the suit finds the first occurrence at or after the start, or reports that there is none |
| `Text.IndexOf` | js/client.js:290 | the first occurrence of the pattern, or none at all |
| `Text.RemoveFirst` | js/client.js:290 | `replace(suit, '')` removes only the first occurrence: re-inserting the pattern there gives back the input, and without an occurrence the input is returned unchanged |
| `Text.RemoveFirstOfSuffix` | js/client.js:290 | a text followed by a one-character marker it does not contain loses exactly the marker |
| `Cards.IsSameCard` | js/client.js:300-302 | false when either card is absent; otherwise true iff rank and suit agree |
| `Cards.IsSameCardSymmetric` | js/client.js:300-302 | sameness is symmetric |
| `Cards.IsSameCardEquivalence` | js/client.js:300-302 | on present cards sameness is reflexive and transitive |
| `Cards.IsSameCardIgnoresDisplay` | js/client.js:300-302 | the display label does not affect sameness |
| `Cards.Face` | js/client.js:282-290 | the face is red iff the suit is ♥ or ♦, and its rank text is the display label with the first occurrence of the suit taken out (`RemoveFirst`) |
| `Cards.FaceShowsRank` | js/client.js:288-290 | for a card labelled rank followed by a one-symbol suit, the face shows exactly the rank |
| `CardSelection.Toggle` | js/client.js:275 | clicking a card the same as the selected one clears the selection; any other click selects the clicked card |
| `CardSelection.ClickHand` | js/client.js:274-277 | a hand click toggles the hand selection and never changes the table selection |
| `CardSelection.ClickTable` | js/client.js:252-257 | a table click changes nothing unless the player is the defender; then it toggles the table selection and never changes the hand selection |
| `CardSelection.DoubleToggle` | js/client.js:255 | two clicks on a card leave it selected if a card the same as it was selected before, and nothing selected otherwise |
| `CardSelection.DoubleToggleRestores` | js/client.js:275 | two clicks on a card restore the earlier selection iff nothing or that very card was selected |
| `CardSelection.DoubleClickHand` | js/client.js:274-277 | a double click on a hand card never changes the table selection, and restores the whole selection when no hand card was selected |
| `ActionDispatch.Dispatch` | js/client.js:135-156 | skip/take always send one empty message; attack/pass send `{rank, suit}` of the hand card iff one is selected, else alert; defend sends the table card as attack and the hand card as defence iff both are selected, else the matching alert; other actions do nothing; every sent message is well-formed and named after the action |
| `ActionDispatch.RejectionNeedsMissingCard` | js/client.js:139-147 | a refused press is an attack, pass or defend with a needed card missing |
| `ActionDispatch.FullSelectionAlwaysSends` | js/client.js:135-155 | with both cards selected exactly the five known actions send |
| `View.HeaderLabel` | js/client.js:181-182 | the attacker and defender labels are never blank: a missing or empty name shows as `-` |
| `View.Trump` | js/client.js:172-178 | the face of the trump card when there is one, otherwise the trump suit as text, or the empty text |
| `View.StatusText` | js/client.js:185-188 | the status line by priority: own attack turn, else own defence, else "<attacker> is attacking..." |
| `View.Opponents` | js/client.js:198-206 | at most one badge per player, and a badge is active iff its player attacks or defends |
| `View.OpponentsSound` | js/client.js:200-201 | every badge is that of a player who is not the viewer |
| `View.OpponentsComplete` | js/client.js:200-201 | every player who is not the viewer has a badge |
| `View.OpponentsAppend` | js/client.js:200 | badges follow the snapshot order: the badges of two runs of players are those of the first run, then those of the second |
| `View.OpponentsOfOne` | js/client.js:200-201 | a single player gives one badge, or none when it is the viewer |
| `View.CardPairs` | js/client.js:219-226 | `table_defense` read two at a time: n entries give n/2 pairs (rounded down), pair k being entries 2k and 2k+1 |
| `View.DefendedPairs` | js/client.js:219-226 | a `table_defense` of length n gives n/2 pairs (rounded down), pair k being entries 2k and 2k+1; an odd last entry is dropped |
| `View.OpenAttacks` | js/client.js:243-250 | every open attack in order, highlighted iff it is the same card as the selected table card |
| `View.TableLayout` | js/client.js:217-261 | the battlefield is the defended pairs followed by the open attacks, with those positions and highlights |
| `View.TableWithUnmatchedEntry` | js/client.js:223-226 | five defence entries show as exactly the first two pairs |
| `View.At` | js/client.js:224-225 | indexing past the end of the list gives nothing |
| `View.RenderDefendedPairs` | js/client.js:219-240 | the `i += 2` walk over `table_defense` that skips a pair with a missing half produces exactly `DefendedPairs` |
| `View.RenderOpenAttacks` | js/client.js:243-261 | the walk over `table_attack` produces exactly `OpenAttacks` |
| `View.RenderTable` | js/client.js:217-220 | the battlefield drawn for a snapshot, with `|| []` for missing lists, is exactly `TableLayout` |
| `View.FindMe` | js/client.js:265 | the first player marked as the viewer, or none when nobody is |
| `View.HandView` | js/client.js:264-273 | nothing without a viewer or a hand; otherwise one item per hand card, highlighted iff it is the same card as the selected hand card |
| `View.HandHighlightUnique` | js/client.js:269-273 | when no two hand cards are the same card, at most one is highlighted |
| `View.Render` | js/client.js:168-196 | the view keeps the deck count, shows the `Trump` corner, the `HeaderLabel` labels (never blank), the `StatusText` line and the `Opponents` badges of the snapshot; the battlefield is the `TableLayout` of the snapshot's pairs and open attacks and the hand is the `HandView` of the viewer's cards; an open attack or hand card is highlighted iff it is the same card as the selected one |
| `View.Lobby` | js/client.js:76-92 | the roster in order with the viewer's entry marked " (You)"; ready iff at least two players, with the matching status text |
| `Session.LoadUserId` | js/client.js:18-22 | a stored non-empty id is returned and storage is untouched; otherwise the fresh id is returned and stored |
| `Session.UserIdStable` | js/client.js:18-22 | once an id is handed out, every later load returns the same id and leaves storage as it is |
| `Session.NormalizeLogin` | js/client.js:56-59 | a refused form carries the "enter both" alert; an accepted one yields a non-empty trimmed name and a non-empty trimmed lower-case room |
| `Session.NormalizeLoginAccepts` | js/client.js:56-59 | the form is accepted iff neither input is all whitespace, and then the name is the trimmed input and the room the trimmed, lower-cased input |
| `Session.NormalizeLoginIdempotent` | js/client.js:56-62 | an accepted name and room are accepted again unchanged |
| `Session.InitialInvariant` | js/client.js:10-15 | the page-load state satisfies the client invariant |
| `Session.JoinKeepsInvariant` | js/client.js:55-73 | joining with a form as `NormalizeLogin` produces it keeps the invariant |
| `Session.StartKeepsInvariant` | js/client.js:95-97 | the start button keeps the invariant |
| `Session.GameUpdateKeepsInvariant` | js/client.js:101-112 | a snapshot keeps the invariant (the game screen only shows with a snapshot) |
| `Session.GameOverKeepsInvariant` | js/client.js:114-118 | the game-over event keeps the invariant |
| `Session.RestartKeepsInvariant` | js/client.js:127-133 | the restart button keeps the invariant |
| `Session.ActionKeepsInvariant` | js/client.js:135-156 | an action press keeps the invariant (everything sent is well-formed) |
| `Session.ClicksKeepInvariant` | js/client.js:252-277 | card clicks keep the invariant |
| `Session.ActionAppendsAtMostOne` | js/client.js:135-156 | an action press appends at most one message, never rewrites earlier ones, and changes nothing but the outbox and selection |
| `Session.ActionClearsSelectionIffSent` | js/client.js:135-160 | a sent press clears both selections; a press that sends nothing changes nothing |
| `Session.SelectThenAttack` | js/client.js:139-143 | with no hand card selected, whatever table card is, selecting a hand card and pressing attack sends that card's rank and suit once and leaves nothing selected |
| `Session.Client.constructor` | js/client.js:10-22 | page load: no snapshot, empty names, nothing selected, only the login overlay shown; the player id and local storage are those `LoadUserId` gives |
| `Session.Client.Join` | js/client.js:55-73 | the join handler performs `JoinStep` of the normalised form and alerts exactly when the form is refused |
| `Session.Client.EnterRoom` | js/client.js:59-72 | with the form read: a refused form changes nothing and returns its alert; an accepted one stores name and room, swaps the login overlay for the lobby and emits `join_game` |
| `Session.Client.StartGame` | js/client.js:95-97 | the start handler performs `StartStep` (emits `start_game`) |
| `Session.Client.GameUpdate` | js/client.js:101-112 | the snapshot handler performs `GameUpdateStep`: replaces the snapshot, keeps the selection, switches to the game screen from lobby or game-over |
| `Session.Client.GameOver` | js/client.js:114-118 | the game-over handler performs `GameOverStep` |
| `Session.Client.RestartGame` | js/client.js:127-133 | the restart handler performs `RestartStep`: only when confirmed, emits `restart_game` and hides the game-over screen |
| `Session.Client.ResetSelection` | js/client.js:158-160 | clears both selections and nothing else |
| `Session.Client.AttemptAction` | js/client.js:135-156 | the handler's outcome is `Dispatch` of the selection at the time of the press, and its new state is `ActionStep` |
| `Session.Client.ClickHandCard` | js/client.js:274-277 | the hand-card handler performs `HandClickStep` |
| `Session.Client.ClickTableCard` | js/client.js:252-257 | the table-card handler performs `TableClickStep` |
| `Session.Client.CurrentView` | js/client.js:168-169 | nothing is drawn before the first snapshot; afterwards the view is `Render` of the snapshot, name and selection |

## Left out

- Socket.io connection setup and transport: emitting is appending to the outbox, and inbound events are method calls.
- DOM lookup and creation, `innerHTML`, CSS classes and `querySelectorAll`: only the data the render functions derive is modelled.
- The `error` event handler, `console.error` and the text of `confirm`: browser UI. The answer to `confirm` is the `confirmed` parameter of `RestartGame`.
- `localStorage` and `crypto.randomUUID`: storage is a `map` parameter and the fresh id a parameter of `LoadUserId`.
- The initial visibility of the screens comes from the page markup. The model starts with only the login overlay shown.
- The opponent avatar initial (`charAt(0).toUpperCase()`): cosmetic.
- Text.ToLower: lower-cases ASCII letters only, because the full Unicode case mapping of `toLowerCase` (which can change a string's length) is not modelled.
- View.StatusText: a missing attacker is printed as "null", as for a snapshot that carries `null`. A snapshot that omits the field would print "undefined".
- Cards.Card: a missing `display` is the empty string, which is exactly what `cardData.display || ""` gives.
- Session.Client.ClickTableCard: requires a snapshot, because table cards are only on screen after the first `game_update`.
- Missing parts of a snapshot are not modelled: `players` and `deck_count` are always present (the source throws on a snapshot without `players` at js/client.js:200 and 265, and shows a missing `deck_count` as "undefined" at js/client.js:180), and no entry inside `table_attack` or `table_defense` is `null`, so the `!attackC || !defendC` guard at js/client.js:226 only skips the odd trailing entry.
- Which card objects carry the click handlers is not modelled: a click may name any card, not only one drawn from the current snapshot.
