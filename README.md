# Tic-tac-toe: rules, room server and local game, in Dafny

This project models the logic of a browser tic-tac-toe game with an online
mode. It has six modules:

- `Wrappers` holds `Option`.
- `Rules` (rules.dfy) holds the board, the eight winning triples and the
  evaluator `checkWinner`. The client (`components/TicTacToe/gameLogic.ts`)
  and the server (`server.js`) each have a copy of the evaluator, and the two
  are the same. The model defines it once.
- `Computer` (computer.dfy) holds `makeComputerMove`, the greedy opponent.
  It wins if it can, else blocks, else takes the centre, else a corner, else
  any cell.
- `Server` (server.dfy) holds the room coordinator of `server.js`:
  - a `Registry` class stands for the process-wide `rooms` Map;
  - one method per socket handler: create-room, join-room, make-move,
    reset-game, start-game and disconnect;
  - each method returns its acknowledgement and the messages it would emit,
    as values.
- `LocalGame` (local_game.dfy) holds the local two-player game of
  `components/TicTacToe/ticTacToeHome.tsx`:
  - a `Game` class with the three state fields `board`, `isXNext` and
    `winner`;
  - the `handleClick` and `handleReset` transitions;
  - its own `calculateWinner`, which never reports a draw.
- `Paths` (paths.dfy) holds `processPublicImagePath` of `utilities/utils.js`.

Boards are sequences of nine cells, each `Empty` or `Taken(X | O)`. JavaScript
`null` becomes `Empty`, `NoWinner` or `None`, depending on the field.

The registry keeps two things:

- `rooms`, a `map` from room id to room record;
- `order`, the Map's insertion order. The disconnect handler's
  `for ... of rooms.entries()` loop follows this order, and it decides the
  order of the player-left notices.

`Registry.Valid()` is the invariant every handler keeps:

- `order` lists exactly the stored ids, each once;
- every room is stored under its own id;
- every room has one or two players;
- every room's `winner` and `winningLine` are what the evaluator says about
  its board;
- before a decision, the turn agrees with the symbol counts: "X" to move when
  the counts are equal, "O" when X is one ahead.

Some quirks of the source are modelled exactly as written:

- join always assigns "O", even when the only remaining member is already
  "O" after the host left;
- a socket may join its own room twice;
- disconnect removes only the first entry of the socket from each room;
- a colliding id passed to create replaces the existing room.

## Model

| member | source | states |
|---|---|---|
| Rules.CheckWinner | components/TicTacToe/gameLogic.ts:26-42 | A symbol is reported exactly when some triple is filled with one symbol. It is the first such triple in list order, and its cells are the reported line. "Draw" is reported exactly when no triple matches and all nine cells are filled. No winner is reported exactly when no triple matches and a cell is free. The line is empty unless there is a win. |
| Rules.FirstComplete | server.js:264-268 | The scan over the triples from a position on returns the first complete triple, and none before it is complete. It returns nothing only when no triple from there on is complete. |
| Rules.WinnerOwnsLine | server.js:264-267 | The reported line has three cell indices below 9, and each of those cells holds the reported symbol. |
| Rules.EmptyBoardUndecided | server.js:52-55 | The empty board, which is the initial one, has no winner, no draw and an empty line. |
| Rules.NewLineThroughCell | components/TicTacToe/gameLogic.ts:28-36 | A triple that becomes complete when one cell is written passes through that cell. |
| Rules.OnlyMoverCanWin | server.js:140-146 | On a board without a complete triple, writing a symbol into an empty cell can make only that symbol the winner. |
| Rules.CountPlace | server.js:140 | Writing a symbol into an empty cell adds one to that symbol's count and leaves the other's count unchanged. |
| Rules.CountEmpty | server.js:52 | The empty board holds no symbols. |
| Computer.EmptyCells | components/TicTacToe/gameLogic.ts:57-59 | It lists exactly the empty cells, in strictly increasing order. |
| Computer.FirstWinningCell | components/TicTacToe/gameLogic.ts:62-66 | It returns the first listed cell whose probe wins for the symbol, and no earlier listed cell's probe wins. It returns nothing only when no listed cell's probe wins. |
| Computer.WinsWith | components/TicTacToe/gameLogic.ts:63-65 | The probe of one cell: a copy of the board with the symbol written there is reported as won by that symbol. The board itself is not changed. |
| Computer.CanWin | components/TicTacToe/gameLogic.ts:62-73 | Some empty cell passes the probe for the symbol. This is the condition under which the win loop, or the block loop for "X", returns. |
| Computer.EmptyCorners | components/TicTacToe/gameLogic.ts:79 | It lists exactly the empty corners among 0, 2, 6 and 8. |
| Computer.FallbackMove | components/TicTacToe/gameLogic.ts:75-84 | The result is an empty cell, and it is missing exactly when the board is full. It is the centre when the centre is empty. Otherwise it is a corner when an empty corner exists. |
| Computer.MakeComputerMove | components/TicTacToe/gameLogic.ts:55-85 | The result is an empty cell, and it is missing exactly when the board is full. If some empty cell wins for "O", the result is the lowest such cell. Otherwise, if some empty cell wins for "X", the result is the lowest such cell, which blocks it. Otherwise the result is the fallback move. |
| Computer.EveryEmptyCornerReachable | components/TicTacToe/gameLogic.ts:79-81 | Once the centre is taken, every empty corner is the fallback's answer for some corner draw. |
| Computer.EveryEmptyCellReachable | components/TicTacToe/gameLogic.ts:83-84 | When neither the centre nor any corner is free, every empty cell is the fallback's answer for some cell draw. |
| Computer.WinsWithMeansCompletesLine | components/TicTacToe/gameLogic.ts:63-65 | On a board without a complete triple, the probe of an empty cell succeeds exactly when writing the symbol there completes a triple through that cell. |
| Server.ErrorText | server.js:76-81 | The two join errors carry the texts "Room not found" and "Room is full", and the text tells them apart. Registry.Join states which text its failure carries. |
| Server.FindIndex | server.js:222 | It returns the first index with the socket id, and -1 exactly when no entry has that id. |
| Server.FindPlayer | server.js:136 | It returns the first entry with the socket id, and nothing exactly when no entry has that id. |
| Server.NewRoom | server.js:49-56 | The record create-room stores: the id, the creator alone as host "X", nine empty cells, "X" to move, no winner and an empty line. |
| Server.MoveAccepted | server.js:128-137 | The make-move guards, all of which must pass: the index is in 0..8 and its cell is empty, the player is the one to move, no winner is set, and the sender's first entry in the room has that symbol. A missing room is handled by the caller. |
| Server.StateOf | server.js:110-115 | The game-state payload: the board, the turn, the winner and the winning line. player-joined and move-made carry it. |
| Server.Play | server.js:140-150 | The move writes exactly the one cell. The other eight cells and the players stay unchanged. The winner is the evaluator's verdict on the new board. A decided result sets the winning line and keeps the turn. An undecided result flips the turn. |
| Server.Restart | server.js:167-170 | The fresh game has nine empty cells, "X" to move, no winner and an empty line. The players and the id stay. |
| Server.TurnConsistent | server.js:140-149 | The turn agrees with the symbol counts. Undecided and "X" to move, or decided after an "O" move, means equal counts. Otherwise "X" leads by one. |
| Server.RoomInvariant | server.js:51-56 | A stored room has one or two players, its winner and line are the evaluator's verdict on its board, and its turn agrees with the counts. |
| Server.NewRoomInvariant | server.js:49-56 | A created room satisfies the room invariant: one player, no winner, and counts consistent with "X" to move. |
| Server.PlayPreservesInvariant | server.js:128-150 | A move that passes every guard keeps the room invariant, including the turn-and-count agreement. |
| Server.RestartInvariant | server.js:202-205 | A restarted room with one or two players satisfies the room invariant. |
| Server.DecidedRoomRejectsMoves | server.js:133 | After a win or a draw, every move is rejected until the room is restarted. |
| Server.RemoveFirst | server.js:222-224 | The splice removes the first entry with the socket id and keeps the others in order. Nothing is removed when no entry has that id. |
| Server.Leave | server.js:222-224 | The room as disconnect leaves it: the socket's first entry spliced out of the players and nothing else changed. |
| Server.Survives | server.js:223-233 | Disconnect keeps the room exactly when the socket is not in it or another player remains. |
| Server.LeavePreservesInvariant | server.js:222-233 | Removing a socket from a room that still has a player left keeps the room invariant. |
| Server.AfterDisconnect | server.js:221-236 | After disconnect, the rooms stored are exactly those without the socket or with another player left. Each of them has lost the socket's first entry. |
| Server.KeptMember | server.js:232-233 | An id stays in the order exactly when it was there and its room survives. |
| Server.KeptDistinct | server.js:233 | Deleting rooms keeps the order free of duplicates. |
| Server.Kept | server.js:221-233 | The insertion order after disconnect: the visited ids whose rooms survive, in their original order. `rooms.delete` removes a key from the order and leaves the rest in place. |
| Server.Notice | server.js:223-229 | The notice disconnect sends for one room: a player-left message naming the socket, to the room minus the socket, exactly when the socket is a member. |
| Server.LeftEvents | server.js:221-229 | The notices of the whole loop: the notice of each visited room, in insertion order. |
| Server.LeftEventsNotifyMembers | server.js:223-229 | A player-left notice goes to a room, to everyone there except the socket, exactly when the socket was a member. |
| Server.LeftEventsOnlyNotices | server.js:227-229 | Disconnect emits only player-left notices naming the socket, each sent to a room minus the socket. |
| Server.MemberRooms | server.js:222-223 | It holds exactly the listed rooms that hold the socket. |
| Server.LeftEventsCount | server.js:221-229 | With distinct room ids, disconnect emits exactly as many notices as there are rooms holding the socket. |
| Server.WithoutSplit | server.js:233 | Deleting an id that occurs once removes it from the order and keeps everything else in order. |
| Server.Without | server.js:233 | The order with one id deleted, as `Map.delete` removes a key from the iteration order. |
| Server.Visit | server.js:222-235 | One step of the disconnect loop advances the partial result by one room. The room is spliced and notified, or deleted when empty. |
| Server.Sweep | server.js:221-237 | The loop over all rooms in insertion order gives exactly the registry, order and notices that disconnect specifies. |
| Server.ReplaceKeepsInvariant | server.js:140-149 | Replacing a stored room, in place, by one that keeps the room invariant keeps the registry invariant. |
| Server.InsertKeepsInvariant | server.js:49 | Storing a room under a new id, appended to the insertion order, keeps the registry invariant. |
| Server.JoinKeepsInvariant | server.js:80-91 | Appending a second player to a room of one keeps the room invariant. |
| Server.RegistryInvariant | server.js:14 | The registry invariant: the order lists exactly the stored ids, each once, and every room is stored under its own id and keeps the room invariant. |
| Server.KeepStep | server.js:222-229 | Visiting a room that survives replaces it by the room without the socket and keeps its place in the order. |
| Server.DropStep | server.js:232-233 | Visiting a room the socket empties deletes it from the registry, and from the order without disturbing the other ids. |
| Server.Registry.constructor | server.js:14 | The empty Map satisfies the registry invariant. |
| Server.Registry.Create | server.js:47-68 | It stores a fresh room with the creator as host "X" on an empty board, replacing any room with that id. The id is appended to the order only if it is new. The ack is the id, the socket, "X" and host. One room-created message goes to the socket. |
| Server.Registry.Join | server.js:71-122 | An unknown id gives "Room not found", and a room with two players gives "Room is full". Both errors change and emit nothing. Otherwise the socket is appended as non-host "O" and nothing else in the room changes. The ack is sent, and player-joined goes to the room. It carries the game state exactly when the room now has two players. |
| Server.Registry.MakeMove | server.js:125-160 | If any guard fails, nothing changes and nothing is emitted. The guards are: a missing room, an out-of-range index or a taken cell, a player other than the one to move, a decided game, and a sender who is not a member or whose symbol differs. An accepted move applies `Play` to that room only and broadcasts the new state together with the move's index and player. |
| Server.Registry.Reset | server.js:163-176 | Any caller restarts an existing room: an empty board, "X" to move, no winner, the players untouched. game-reset is broadcast. A missing room gives a no-op. |
| Server.Registry.Start | server.js:179-214 | Only a host sender, in a room with at least two players, gets the same restart as reset, and game-started is broadcast. Every other call changes and emits nothing. |
| Server.Registry.Disconnect | server.js:217-238 | The new registry is `AfterDisconnect` of the old one. The order loses exactly the deleted rooms. The notices follow the insertion order. The invariant, including 1 to 2 players per room, is kept. |
| LocalGame.CalculateWinner | components/TicTacToe/ticTacToeHome.tsx:21-43 | It returns a symbol exactly when some triple is complete: the symbol of the first complete triple in list order. |
| LocalGame.CalculateWinnerAgrees | components/TicTacToe/ticTacToeHome.tsx:33-42 | It returns symbol m exactly when the shared evaluator reports a win for m. It returns nothing exactly when the shared evaluator reports no winner or a draw. |
| LocalGame.StatusOf | components/TicTacToe/ticTacToeHome.tsx:67-75 | A winner is shown exactly when one is recorded. A draw is shown exactly when no winner is recorded and every cell is filled. Otherwise the next player is shown, with "X" when `isXNext`. |
| LocalGame.StatusAgreesWithCheckWinner | components/TicTacToe/ticTacToeHome.tsx:67-75 | With the recorded winner up to date, the status line shows a winner, a draw or the next player exactly when the shared evaluator reports a win, a draw or no winner. |
| LocalGame.DrawIsFinal | components/TicTacToe/ticTacToeHome.tsx:10-11 | Once the draw is shown, every click is ignored. |
| LocalGame.ClickAccepted | components/TicTacToe/ticTacToeHome.tsx:11 | A click goes through exactly when its cell is empty and no winner is recorded. |
| LocalGame.Parity | components/TicTacToe/ticTacToeHome.tsx:6-17 | Turn parity: X is next exactly when both symbols are equally many, and O is next exactly when X leads by one. |
| LocalGame.Game.constructor | components/TicTacToe/ticTacToeHome.tsx:6-8 | The game starts with nine empty cells, X next and no winner, and satisfies the invariant. |
| LocalGame.Game.HandleClick | components/TicTacToe/ticTacToeHome.tsx:10-19 | A click on an occupied cell, or after a win, changes nothing. Any other click writes the symbol whose turn it is into exactly that cell, negates `isXNext` and records `calculateWinner` of the new board. That winner can only be the player who just moved. The winner and the turn parity stay valid. |
| LocalGame.Game.HandleReset | components/TicTacToe/ticTacToeHome.tsx:45-49 | The reset gives nine empty cells, X next and no winner. |
| Paths.Falsy | utilities/utils.js:2 | The path counts as falsy exactly when it is missing or the empty string. |
| Paths.LeadingSlash | utilities/utils.js:4-6 | The result starts with "/". It keeps the whole path as its suffix and adds at most one character. A path that already starts with "/" is returned unchanged. |
| Paths.ProcessPublicImagePath | utilities/utils.js:1-11 | A missing or empty path gives "", whatever the flag. Otherwise the path gets its leading "/", and the base is prefixed when `usePublic` is set, which is the default. |
| Paths.LocalPathRooted | utilities/utils.js:2-6 | Without the base, the result is empty exactly for a falsy path, and otherwise starts with "/". |
| Paths.LocalPathIdempotent | utilities/utils.js:2-10 | Without the base, processing an already processed path returns it unchanged. |
| Paths.PublicPathSplits | utilities/utils.js:1-9 | By default, with the base, the result is the base followed by exactly the local result. |

## Left out

- Transport is left out: the HTTP server, the Next.js request handling, the socket.io wiring, the debugging `onevent` wrapper, `socket.join`, message delivery and logging (server.js:1-44, 241-248). Handlers return the messages they would send as `Event` values, each naming its audience.
- The optional acknowledgement `callback` of create-room and join-room is not a separate output. It receives the same value the methods return as `ack` or `reply` (server.js:66, 76, 81, 120).
- `generateRoomId` uses `Math.random` and base-36 formatting (server.js:252-254). It is not modelled: the id is an input to `Registry.Create`.
- The `Math.random()` picks of `makeComputerMove` are caller-supplied draws, `cornerDraw` and `cellDraw`. The pick is the draw modulo the number of candidates. Two lemmas show that every candidate is reachable.
- Computer.MakeComputerMove: on a full board, the source returns `undefined` (an index into an empty array). The model returns `None`.
- Server.Registry.MakeMove: the index is an integer. Non-integer or non-numeric indices that JavaScript would accept are not modelled. Every index outside 0..8 is rejected, as the `!== null` guard does for an `undefined` lookup.
- LocalGame.Game.HandleClick: requires an index in 0..8. The board's nine buttons are its only callers. An out-of-range index, which JavaScript would use to grow the array, is not modelled.
- Paths.ProcessPublicImagePath: the base URL comes from the environment in the original, and here it is a parameter. The `"undefined"` prefix of an unset variable is not modelled. Falsy non-string arguments (`0`, `false`) are not modelled; the path is an optional string.
- Server.Sweep and Server.Visit: they work on local copies of the map and the order, and the registry assigns the result back afterwards. The source deletes from the Map while iterating over it. Deleting the visited entry does not disturb a JavaScript Map iteration, so the visiting order is the same.
- The client networking hook `useWebSocket.ts`, all React rendering and animation, and the configuration and routing files have no game logic. They are not part of this model.
- Concurrency is not modelled. The server runs on a single-threaded event loop, so the handlers are sequential method calls.
- `makeComputerMove` probes copies of the board and never changes its input. This holds by construction, since the model is a function on values.
