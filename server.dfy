/**
 * The online room coordinator of server.js: a registry from room id to room
 * record, mutated by the create-room, join-room, make-move, reset-game,
 * start-game and disconnect handlers. Each handler returns its
 * acknowledgement and the messages it emits; delivery is not modelled.
 */
module Server {

  import opened Wrappers
  import opened Rules

  /** `{ id, symbol, isHost }`, one entry of `room.players`; `id` is a socket id. */
  datatype Player = Player(id: string, symbol: Mark, isHost: bool)

  /** The room record stored under its id. */
  datatype Room = Room(
    roomId: string,
    players: seq<Player>,
    board: Board,
    currentTurn: Mark,
    winner: Winner,
    winningLine: seq<nat>)

  /** `{ roomId, playerId, playerSymbol, isHost }`, the acknowledgement of create and join. */
  datatype RoomAck = RoomAck(roomId: string, playerId: string, playerSymbol: Mark, isHost: bool)

  /** The two errors join-room reports. */
  datatype JoinError = RoomNotFound | RoomFull

  /** The `error` strings the acknowledgement carries; the text tells the two errors apart. */
  function ErrorText(e: JoinError): (s: string)
    ensures |s| > 0
    ensures s == "Room not found" || s == "Room is full"
    ensures s == "Room not found" <==> e == RoomNotFound
  {
    match e
    case RoomNotFound => "Room not found"
    case RoomFull => "Room is full"
  }

  datatype JoinReply = Joined(ack: RoomAck) | Failed(error: JoinError)

  /** `{ board, currentTurn, winner, winningLine }` */
  datatype GameState = GameState(board: Board, currentTurn: Mark, winner: Winner, winningLine: seq<nat>)

  /** The payloads the handlers emit, one constructor per event name. */
  datatype Message =
    | RoomCreated(created: RoomAck)
    | RoomJoined(joined: RoomAck)
    | PlayerJoined(room: string, members: seq<Player>, gameState: Option<GameState>)
    | MoveMade(state: GameState, lastIndex: int, lastPlayer: Mark)
    | GameReset(resetBoard: Board, resetTurn: Mark)
    | GameStarted(startBoard: Board, startTurn: Mark)
    | PlayerLeft(playerId: string)

  /** `socket.emit`, `io.to(roomId).emit` and `socket.to(roomId).emit` (everyone but the sender). */
  datatype Target = ToSocket(socket: string) | ToRoom(roomId: string) | ToRoomExcept(roomId: string, except: string)

  datatype Event = Event(target: Target, message: Message)

  /** The record `create-room` stores: the creator alone, as host and "X", on an empty board. */
  function NewRoom(roomId: string, socketId: string): Room {
    Room(roomId, [Player(socketId, X, true)], EmptyBoard, X, NoWinner, [])
  }

  /** `players.findIndex((p) => p.id === socketId)` */
  function FindIndex(players: seq<Player>, socketId: string): (k: int)
    ensures -1 <= k < |players|
    ensures k == -1 <==> forall j :: 0 <= j < |players| ==> players[j].id != socketId
    ensures k >= 0 ==> players[k].id == socketId && forall j :: 0 <= j < k ==> players[j].id != socketId
  {
    if players == [] then -1
    else if players[0].id == socketId then 0
    else
      var k := FindIndex(players[1..], socketId);
      if k == -1 then -1 else k + 1
  }

  /** `players.find((p) => p.id === socketId)`: the first entry with that id. */
  function FindPlayer(players: seq<Player>, socketId: string): (r: Option<Player>)
    ensures r.None? <==> forall j :: 0 <= j < |players| ==> players[j].id != socketId
    ensures r.Some? ==> r.value.id == socketId
    ensures r.Some? ==>
      exists k :: 0 <= k < |players| && players[k] == r.value && forall j :: 0 <= j < k ==> players[j].id != socketId
  {
    var k := FindIndex(players, socketId);
    if k == -1 then None else Some(players[k])
  }

  /** The guards of make-move, all of which must pass for the move to be applied. */
  predicate MoveAccepted(room: Room, socketId: string, index: int, player: Mark) {
    0 <= index < 9 &&
    room.board[index] == Empty &&
    room.currentTurn == player &&
    room.winner == NoWinner &&
    var p := FindPlayer(room.players, socketId);
    p.Some? && p.value.symbol == player
  }

  /** The room after an accepted move: the cell written, then evaluated, then the turn flipped unless decided. */
  function Play(room: Room, index: nat, player: Mark): (r: Room)
    requires index < 9 && room.winner == NoWinner
    ensures r.board[index] == Taken(player)
    ensures forall j :: 0 <= j < 9 && j != index ==> r.board[j] == room.board[j]
    ensures r.roomId == room.roomId && r.players == room.players
    ensures r.winner == CheckWinner(r.board).winner
    ensures r.winner != NoWinner ==> r.winningLine == CheckWinner(r.board).line && r.currentTurn == room.currentTurn
    ensures r.winner == NoWinner ==> r.winningLine == room.winningLine && r.currentTurn == Other(room.currentTurn)
  {
    var board := room.board[index := Taken(player)];
    var result := CheckWinner(board);
    if result.winner != NoWinner then
      room.(board := board, winner := result.winner, winningLine := result.line)
    else
      room.(board := board, currentTurn := Other(room.currentTurn))
  }

  /** The fresh game reset-game and start-game install; the players stay. */
  function Restart(room: Room): (r: Room)
    ensures r.roomId == room.roomId && r.players == room.players
    ensures forall j :: 0 <= j < 9 ==> r.board[j] == Empty
    ensures r.currentTurn == X && r.winner == NoWinner && r.winningLine == []
  {
    room.(board := EmptyBoard, currentTurn := X, winner := NoWinner, winningLine := [])
  }

  /** The state the broadcasts of a room carry. */
  function StateOf(room: Room): GameState {
    GameState(room.board, room.currentTurn, room.winner, room.winningLine)
  }

  /**
   * Whose turn it is agrees with the symbol counts: before a decision the
   * turn is "X" exactly when both symbols are equally many and "O" when "X"
   * leads by one; once decided the turn stays with the last mover.
   */
  predicate TurnConsistent(b: Board, turn: Mark, w: Winner) {
    var xToMove := (turn == X) == (w == NoWinner);
    if xToMove then Count(b, X) == Count(b, O) else Count(b, X) == Count(b, O) + 1
  }

  /**
   * What holds of every stored room: one or two players, a winner and
   * winning line confirmed by the evaluator against the board, and a turn
   * consistent with the symbol counts.
   */
  predicate RoomInvariant(room: Room) {
    1 <= |room.players| <= 2 &&
    room.winner == CheckWinner(room.board).winner &&
    room.winningLine == CheckWinner(room.board).line &&
    TurnConsistent(room.board, room.currentTurn, room.winner)
  }

  /** A freshly created room satisfies the room invariant. */
  lemma NewRoomInvariant(roomId: string, socketId: string)
    ensures RoomInvariant(NewRoom(roomId, socketId))
  {
    EmptyBoardUndecided();
    CountEmpty(X);
    CountEmpty(O);
  }

  /** An accepted move keeps the room invariant. */
  lemma PlayPreservesInvariant(room: Room, socketId: string, index: int, player: Mark)
    requires RoomInvariant(room) && MoveAccepted(room, socketId, index, player)
    ensures RoomInvariant(Play(room, index, player))
  {
    var r := Play(room, index, player);
    assert r.board == room.board[index := Taken(player)];
    CountPlace(room.board, index, player);
    assert Other(player) != player;
  }

  /** Restarting a room with one or two players satisfies the room invariant. */
  lemma RestartInvariant(room: Room)
    requires 1 <= |room.players| <= 2
    ensures RoomInvariant(Restart(room))
  {
    EmptyBoardUndecided();
    CountEmpty(X);
    CountEmpty(O);
  }

  /** A room with a winner or a draw rejects every move until it is restarted. */
  lemma DecidedRoomRejectsMoves(room: Room, socketId: string, index: int, player: Mark)
    requires RoomInvariant(room) && CheckWinner(room.board).winner != NoWinner
    ensures !MoveAccepted(room, socketId, index, player)
  {
  }

  /**
   * `players.splice(findIndex(...), 1)`: the first entry with the socket id
   * removed and the others kept in order; nothing removed without one.
   */
  function RemoveFirst(players: seq<Player>, socketId: string): (r: seq<Player>)
    ensures FindIndex(players, socketId) == -1 ==> r == players
    ensures var k := FindIndex(players, socketId);
      k >= 0 ==>
        |r| == |players| - 1 &&
        forall j :: 0 <= j < |r| ==> r[j] == if j < k then players[j] else players[j + 1]
  {
    var k := FindIndex(players, socketId);
    if k == -1 then players else players[..k] + players[k + 1..]
  }

  predicate Member(room: Room, socketId: string) {
    FindIndex(room.players, socketId) >= 0
  }

  /** The room as disconnect leaves it. */
  function Leave(room: Room, socketId: string): Room {
    room.(players := RemoveFirst(room.players, socketId))
  }

  /** Disconnect keeps the room: the socket is not in it, or someone else remains. */
  predicate Survives(room: Room, socketId: string) {
    !Member(room, socketId) || |room.players| > 1
  }

  /** Leaving a surviving room keeps the room invariant. */
  lemma LeavePreservesInvariant(room: Room, socketId: string)
    requires RoomInvariant(room) && Survives(room, socketId)
    ensures RoomInvariant(Leave(room, socketId))
  {
  }

  /** The registry after disconnect: members removed once from each room, emptied rooms deleted. */
  function AfterDisconnect(rooms: map<string, Room>, socketId: string): (m: map<string, Room>)
    ensures forall id :: id in m <==> id in rooms && Survives(rooms[id], socketId)
    ensures forall id :: id in m ==> m[id] == Leave(rooms[id], socketId)
  {
    map id | id in rooms && Survives(rooms[id], socketId) :: Leave(rooms[id], socketId)
  }

  /** The registry part-way through disconnect, after the rooms of `done` have been visited. */
  function Partial(rooms: map<string, Room>, done: seq<string>, socketId: string): map<string, Room> {
    map id | id in rooms && (id in done ==> Survives(rooms[id], socketId)) ::
      if id in done then Leave(rooms[id], socketId) else rooms[id]
  }

  lemma PartialNone(rooms: map<string, Room>, socketId: string)
    ensures Partial(rooms, [], socketId) == rooms
  {
  }

  lemma PartialStep(rooms: map<string, Room>, done: seq<string>, id: string, socketId: string)
    requires id in rooms && id !in done
    ensures Partial(rooms, done + [id], socketId) ==
      if Survives(rooms[id], socketId) then Partial(rooms, done, socketId)[id := Leave(rooms[id], socketId)]
      else Partial(rooms, done, socketId) - {id}
  {
    var before, after := Partial(rooms, done, socketId), Partial(rooms, done + [id], socketId);
    assert forall x :: x in done + [id] <==> x in done || x == id;
    if Survives(rooms[id], socketId) {
      assert after.Keys == before[id := Leave(rooms[id], socketId)].Keys;
    } else {
      assert after.Keys == (before - {id}).Keys;
    }
  }

  lemma PartialAll(rooms: map<string, Room>, done: seq<string>, socketId: string)
    requires forall id :: id in rooms ==> id in done
    ensures Partial(rooms, done, socketId) == AfterDisconnect(rooms, socketId)
  {
    assert Partial(rooms, done, socketId).Keys == AfterDisconnect(rooms, socketId).Keys;
  }

  predicate Distinct(s: seq<string>) {
    forall p, q :: 0 <= p < q < |s| ==> s[p] != s[q]
  }

  /** The ids of `ids` whose rooms survive disconnect, in order. */
  function Kept(rooms: map<string, Room>, ids: seq<string>, socketId: string): seq<string>
    requires forall j :: 0 <= j < |ids| ==> ids[j] in rooms
  {
    if ids == [] then []
    else (if Survives(rooms[ids[0]], socketId) then [ids[0]] else []) + Kept(rooms, ids[1..], socketId)
  }

  /** An id is kept exactly when it is among `ids` and its room survives. */
  lemma {:induction false} KeptMember(rooms: map<string, Room>, ids: seq<string>, socketId: string, x: string)
    requires forall j :: 0 <= j < |ids| ==> ids[j] in rooms
    ensures x in Kept(rooms, ids, socketId) <==> x in ids && Survives(rooms[x], socketId)
  {
    if ids != [] {
      KeptMember(rooms, ids[1..], socketId, x);
      assert x in ids <==> x == ids[0] || x in ids[1..];
    }
  }

  /** `Kept` lists each id at most once when `ids` does. */
  lemma {:induction false} KeptDistinct(rooms: map<string, Room>, ids: seq<string>, socketId: string)
    requires forall j :: 0 <= j < |ids| ==> ids[j] in rooms
    requires Distinct(ids)
    ensures Distinct(Kept(rooms, ids, socketId))
  {
    if ids != [] {
      KeptDistinct(rooms, ids[1..], socketId);
      KeptMember(rooms, ids[1..], socketId, ids[0]);
      assert ids[0] !in ids[1..];
    }
  }

  /** The player-left notice disconnect sends to room `id`, if the socket is in it. */
  function Notice(rooms: map<string, Room>, id: string, socketId: string): seq<Event>
    requires id in rooms
  {
    if Member(rooms[id], socketId) then [Event(ToRoomExcept(id, socketId), PlayerLeft(socketId))] else []
  }

  /** The player-left notices disconnect emits, one per room of `ids` the socket is in, in order. */
  function LeftEvents(rooms: map<string, Room>, ids: seq<string>, socketId: string): seq<Event>
    requires forall j :: 0 <= j < |ids| ==> ids[j] in rooms
  {
    if ids == [] then [] else Notice(rooms, ids[0], socketId) + LeftEvents(rooms, ids[1..], socketId)
  }

  /**
   * Disconnect notifies exactly the rooms holding the socket, each with a
   * player-left notice sent to everyone there but the socket itself.
   */
  lemma {:induction false} LeftEventsNotifyMembers(rooms: map<string, Room>, ids: seq<string>, socketId: string, x: string)
    requires forall j :: 0 <= j < |ids| ==> ids[j] in rooms
    ensures Event(ToRoomExcept(x, socketId), PlayerLeft(socketId)) in LeftEvents(rooms, ids, socketId) <==>
      x in ids && Member(rooms[x], socketId)
  {
    if ids != [] {
      LeftEventsNotifyMembers(rooms, ids[1..], socketId, x);
      assert x in ids <==> x == ids[0] || x in ids[1..];
    }
  }

  /** Disconnect sends nothing but player-left notices for the socket. */
  lemma {:induction false} LeftEventsOnlyNotices(rooms: map<string, Room>, ids: seq<string>, socketId: string)
    requires forall j :: 0 <= j < |ids| ==> ids[j] in rooms
    ensures forall e :: e in LeftEvents(rooms, ids, socketId) ==>
      e.message == PlayerLeft(socketId) && e.target.ToRoomExcept? && e.target.except == socketId
  {
    if ids != [] {
      LeftEventsOnlyNotices(rooms, ids[1..], socketId);
    }
  }

  /** The ids of `ids` whose rooms hold the socket. */
  function MemberRooms(rooms: map<string, Room>, ids: seq<string>, socketId: string): (r: set<string>)
    requires forall j :: 0 <= j < |ids| ==> ids[j] in rooms
    ensures forall x :: x in r <==> x in ids && Member(rooms[x], socketId)
  {
    if ids == [] then {}
    else (if Member(rooms[ids[0]], socketId) then {ids[0]} else {}) + MemberRooms(rooms, ids[1..], socketId)
  }

  /** With distinct room ids, there is one notice per room holding the socket. */
  lemma {:induction false} LeftEventsCount(rooms: map<string, Room>, ids: seq<string>, socketId: string)
    requires forall j :: 0 <= j < |ids| ==> ids[j] in rooms
    requires Distinct(ids)
    ensures |LeftEvents(rooms, ids, socketId)| == |MemberRooms(rooms, ids, socketId)|
  {
    if ids != [] {
      assert Distinct(ids[1..]) by {
        forall p, q | 0 <= p < q < |ids| - 1 ensures ids[1..][p] != ids[1..][q] {
          assert ids[1..][p] == ids[p + 1] && ids[1..][q] == ids[q + 1];
        }
      }
      LeftEventsCount(rooms, ids[1..], socketId);
      assert ids[0] !in ids[1..] by {
        forall p | 0 <= p < |ids| - 1 ensures ids[1..][p] != ids[0] {
          assert ids[1..][p] == ids[p + 1];
        }
      }
    }
  }

  lemma {:induction false} KeptSnoc(rooms: map<string, Room>, ids: seq<string>, x: string, socketId: string)
    requires forall j :: 0 <= j < |ids| ==> ids[j] in rooms
    requires x in rooms
    ensures Kept(rooms, ids + [x], socketId) ==
      Kept(rooms, ids, socketId) + (if Survives(rooms[x], socketId) then [x] else [])
  {
    if ids == [] {
      assert [x][1..] == [];
    } else {
      var head := if Survives(rooms[ids[0]], socketId) then [ids[0]] else [];
      var tail := if Survives(rooms[x], socketId) then [x] else [];
      assert (ids + [x])[0] == ids[0] && (ids + [x])[1..] == ids[1..] + [x];
      calc {
        Kept(rooms, ids + [x], socketId);
        head + Kept(rooms, ids[1..] + [x], socketId);
        { KeptSnoc(rooms, ids[1..], x, socketId); }
        head + (Kept(rooms, ids[1..], socketId) + tail);
        Kept(rooms, ids, socketId) + tail;
      }
    }
  }

  lemma {:induction false} LeftEventsSnoc(rooms: map<string, Room>, ids: seq<string>, x: string, socketId: string)
    requires forall j :: 0 <= j < |ids| ==> ids[j] in rooms
    requires x in rooms
    ensures LeftEvents(rooms, ids + [x], socketId) == LeftEvents(rooms, ids, socketId) + Notice(rooms, x, socketId)
  {
    if ids == [] {
      assert [x][1..] == [];
    } else {
      assert (ids + [x])[0] == ids[0] && (ids + [x])[1..] == ids[1..] + [x];
      calc {
        LeftEvents(rooms, ids + [x], socketId);
        Notice(rooms, ids[0], socketId) + LeftEvents(rooms, ids[1..] + [x], socketId);
        { LeftEventsSnoc(rooms, ids[1..], x, socketId); }
        Notice(rooms, ids[0], socketId) + (LeftEvents(rooms, ids[1..], socketId) + Notice(rooms, x, socketId));
        LeftEvents(rooms, ids, socketId) + Notice(rooms, x, socketId);
      }
    }
  }

  /** `x` removed from `s`, as `Map.delete` removes a key from the iteration order. */
  function Without(s: seq<string>, x: string): seq<string> {
    if s == [] then [] else (if s[0] == x then [] else [s[0]]) + Without(s[1..], x)
  }

  lemma {:induction false} WithoutSplit(a: seq<string>, x: string, b: seq<string>)
    requires x !in a
    requires x !in b
    ensures Without(a + [x] + b, x) == a + b
  {
    if a == [] {
      assert ([x] + b)[1..] == b;
      WithoutAbsent(b, x);
    } else {
      assert (a + [x] + b)[1..] == a[1..] + [x] + b;
      WithoutSplit(a[1..], x, b);
      assert a == [a[0]] + a[1..];
    }
  }

  lemma {:induction false} WithoutAbsent(s: seq<string>, x: string)
    requires x !in s
    ensures Without(s, x) == s
  {
    if s != [] {
      WithoutAbsent(s[1..], x);
    }
  }

  /**
   * One iteration of the loop of disconnect, on the room `id`: splice the
   * socket's first entry out, notify the room, delete the room once empty.
   * `done` are the ids visited before, `rest` those still to visit.
   */
  method Visit(ghost rooms0: map<string, Room>, ghost done: seq<string>, id: string, ghost rest: seq<string>,
               rooms: map<string, Room>, order: seq<string>, events: seq<Event>, socketId: string)
    returns (rooms': map<string, Room>, order': seq<string>, events': seq<Event>)
    requires forall j :: 0 <= j < |done| ==> done[j] in rooms0
    requires id in rooms0 && id !in done && id !in rest
    requires rooms == Partial(rooms0, done, socketId)
    requires order == Kept(rooms0, done, socketId) + [id] + rest
    requires events == LeftEvents(rooms0, done, socketId)
    ensures rooms' == Partial(rooms0, done + [id], socketId)
    ensures order' == Kept(rooms0, done + [id], socketId) + rest
    ensures events' == LeftEvents(rooms0, done + [id], socketId)
  {
    rooms', order', events' := rooms, order, events;
    var room := rooms[id];
    var k := FindIndex(room.players, socketId);
    LeftEventsSnoc(rooms0, done, id, socketId);
    if k == -1 {
      KeepStep(rooms0, done, id, rest, socketId);
      assert rooms[id := Leave(room, socketId)] == rooms;
    } else {
      var players := room.players[..k] + room.players[k + 1..];
      events' := events + [Event(ToRoomExcept(id, socketId), PlayerLeft(socketId))];
      if |players| == 0 {
        DropStep(rooms0, done, id, rest, socketId);
        rooms' := rooms - {id};
        order' := Without(order, id);
      } else {
        KeepStep(rooms0, done, id, rest, socketId);
        rooms' := rooms[id := room.(players := players)];
      }
    }
  }

  /** Visiting a room that survives: it is replaced, and keeps its place in the order. */
  lemma KeepStep(rooms0: map<string, Room>, done: seq<string>, id: string, rest: seq<string>, socketId: string)
    requires forall j :: 0 <= j < |done| ==> done[j] in rooms0
    requires id in rooms0 && id !in done && Survives(rooms0[id], socketId)
    ensures id in Partial(rooms0, done, socketId) && Partial(rooms0, done, socketId)[id] == rooms0[id]
    ensures Partial(rooms0, done + [id], socketId) == Partial(rooms0, done, socketId)[id := Leave(rooms0[id], socketId)]
    ensures Kept(rooms0, done + [id], socketId) + rest == Kept(rooms0, done, socketId) + [id] + rest
  {
    PartialStep(rooms0, done, id, socketId);
    KeptSnoc(rooms0, done, id, socketId);
  }

  /** Visiting a room the socket empties: it is deleted, from the registry and from the order. */
  lemma DropStep(rooms0: map<string, Room>, done: seq<string>, id: string, rest: seq<string>, socketId: string)
    requires forall j :: 0 <= j < |done| ==> done[j] in rooms0
    requires id in rooms0 && id !in done && id !in rest && !Survives(rooms0[id], socketId)
    ensures id in Partial(rooms0, done, socketId) && Partial(rooms0, done, socketId)[id] == rooms0[id]
    ensures Partial(rooms0, done + [id], socketId) == Partial(rooms0, done, socketId) - {id}
    ensures Kept(rooms0, done + [id], socketId) + rest == Without(Kept(rooms0, done, socketId) + [id] + rest, id)
  {
    var kept := Kept(rooms0, done, socketId);
    assert Partial(rooms0, done + [id], socketId) == Partial(rooms0, done, socketId) - {id} by {
      PartialStep(rooms0, done, id, socketId);
    }
    assert Kept(rooms0, done + [id], socketId) == kept by {
      KeptSnoc(rooms0, done, id, socketId);
    }
    assert id !in kept by {
      KeptMember(rooms0, done, socketId, id);
    }
    WithoutSplit(kept, id, rest);
  }

  /**
   * The loop of disconnect, `for (const [roomId, room] of rooms.entries())`:
   * visits the ids in insertion order.
   */
  method Sweep(rooms0: map<string, Room>, ids: seq<string>, socketId: string)
    returns (rooms: map<string, Room>, order: seq<string>, events: seq<Event>)
    requires forall j :: 0 <= j < |ids| ==> ids[j] in rooms0
    requires Distinct(ids)
    ensures (forall id :: id in rooms0 ==> id in ids) ==> rooms == AfterDisconnect(rooms0, socketId)
    ensures order == Kept(rooms0, ids, socketId)
    ensures events == LeftEvents(rooms0, ids, socketId)
  {
    rooms, order, events := rooms0, ids, [];
    PartialNone(rooms0, socketId);
    var rest := ids;
    ghost var done: seq<string> := [];
    while rest != []
      invariant ids == done + rest
      invariant forall j :: 0 <= j < |done| ==> done[j] in rooms0
      invariant rooms == Partial(rooms0, done, socketId)
      invariant order == Kept(rooms0, done, socketId) + rest
      invariant events == LeftEvents(rooms0, done, socketId)
    {
      var id := rest[0];
      SplitNext(rooms0, ids, done, rest);
      rooms, order, events := Visit(rooms0, done, id, rest[1..], rooms, order, events, socketId);
      rest := rest[1..];
      done := done + [id];
    }
    assert done == ids && order == Kept(rooms0, done, socketId) + [];
    if forall id :: id in rooms0 ==> id in ids {
      PartialAll(rooms0, ids, socketId);
    }
  }

  /**
   * Advancing the loop of disconnect by one id: the next id is stored, has
   * not been visited and does not come again.
   */
  lemma SplitNext(rooms0: map<string, Room>, ids: seq<string>, done: seq<string>, rest: seq<string>)
    requires ids == done + rest && rest != [] && Distinct(ids)
    requires forall j :: 0 <= j < |ids| ==> ids[j] in rooms0
    ensures rest[0] in rooms0 && rest[0] !in done && rest[0] !in rest[1..]
    ensures rest == [rest[0]] + rest[1..]
    ensures ids == (done + [rest[0]]) + rest[1..]
    ensures forall j :: 0 <= j < |done| + 1 ==> (done + [rest[0]])[j] in rooms0
  {
    var id := rest[0];
    assert ids[|done|] == id;
    forall p | 0 <= p < |done| ensures done[p] != id {
      assert ids[p] == done[p];
    }
    forall p | 0 <= p < |rest| - 1 ensures rest[1..][p] != id {
      assert ids[|done| + 1 + p] == rest[1..][p];
    }
    forall j | 0 <= j < |done| + 1 ensures (done + [id])[j] in rooms0 {
      assert (done + [id])[j] == ids[j];
    }
  }

  /**
   * What holds of the registry between handlers: the order lists each stored
   * id once and nothing else, and every room is stored under its own id and
   * keeps the room invariant.
   */
  ghost predicate RegistryInvariant(rooms: map<string, Room>, order: seq<string>) {
    Distinct(order) &&
    (forall id :: id in rooms <==> id in order) &&
    (forall id :: id in rooms ==> rooms[id].roomId == id && RoomInvariant(rooms[id]))
  }

  /** Replacing a stored room by one that keeps the room invariant keeps the registry invariant. */
  lemma ReplaceKeepsInvariant(rooms: map<string, Room>, order: seq<string>, id: string, room: Room)
    requires RegistryInvariant(rooms, order)
    requires id in rooms && room.roomId == id && RoomInvariant(room)
    ensures RegistryInvariant(rooms[id := room], order)
  {
  }

  /** Storing a room under a new id at the end of the order keeps the registry invariant. */
  lemma InsertKeepsInvariant(rooms: map<string, Room>, order: seq<string>, id: string, room: Room)
    requires RegistryInvariant(rooms, order)
    requires id !in rooms && room.roomId == id && RoomInvariant(room)
    ensures RegistryInvariant(rooms[id := room], order + [id])
  {
    assert forall x :: x in order + [id] <==> x in order || x == id;
  }

  /** A second player joining a room of one keeps the room invariant; the game is untouched. */
  lemma JoinKeepsInvariant(room: Room, p: Player)
    requires RoomInvariant(room) && |room.players| < 2
    ensures RoomInvariant(room.(players := room.players + [p]))
  {
  }

  /** The process-wide `rooms` Map; `order` is its insertion order, which `for ... of` follows. */
  class Registry {
    var rooms: map<string, Room>
    var order: seq<string>

    ghost predicate Valid()
      reads this
    {
      RegistryInvariant(rooms, order)
    }

    /** `new Map()` */
    constructor ()
      ensures Valid() && rooms == map[] && order == []
    {
      rooms := map[];
      order := [];
    }

    /**
     * create-room under a caller-chosen id: stores a fresh room with the
     * creator as host "X", replacing any room of that id, and acknowledges it.
     */
    method Create(roomId: string, socketId: string) returns (ack: RoomAck, events: seq<Event>)
      requires Valid()
      modifies this
      ensures Valid()
      ensures rooms == old(rooms)[roomId := NewRoom(roomId, socketId)]
      ensures order == if roomId in old(rooms) then old(order) else old(order) + [roomId]
      ensures ack == RoomAck(roomId, socketId, X, true)
      ensures events == [Event(ToSocket(socketId), RoomCreated(ack))]
    {
      NewRoomInvariant(roomId, socketId);
      if roomId !in rooms {
        InsertKeepsInvariant(rooms, order, roomId, NewRoom(roomId, socketId));
        order := order + [roomId];
      } else {
        ReplaceKeepsInvariant(rooms, order, roomId, NewRoom(roomId, socketId));
      }
      rooms := rooms[roomId := NewRoom(roomId, socketId)];
      ack := RoomAck(roomId, socketId, X, true);
      events := [Event(ToSocket(socketId), RoomCreated(ack))];
    }

    /**
     * join-room: fails without effect on an unknown id or a room with two
     * players; otherwise appends the socket as non-host "O" and announces it.
     */
    method Join(roomId: string, socketId: string) returns (reply: JoinReply, events: seq<Event>)
      requires Valid()
      modifies this
      ensures Valid() && order == old(order)
      ensures roomId !in old(rooms) ==> reply == Failed(RoomNotFound)
      ensures roomId in old(rooms) && |old(rooms)[roomId].players| >= 2 ==> reply == Failed(RoomFull)
      ensures reply.Failed? ==> rooms == old(rooms) && events == []
      ensures roomId !in old(rooms) ==> ErrorText(reply.error) == "Room not found"
      ensures roomId in old(rooms) && |old(rooms)[roomId].players| >= 2 ==> ErrorText(reply.error) == "Room is full"
      ensures reply.Joined? <==> roomId in old(rooms) && |old(rooms)[roomId].players| < 2
      ensures reply.Joined? ==>
        var room := old(rooms)[roomId];
        var players := room.players + [Player(socketId, O, false)];
        rooms == old(rooms)[roomId := room.(players := players)] &&
        reply.ack == RoomAck(roomId, socketId, O, false) &&
        |players| == 2 &&
        events == [
          Event(ToSocket(socketId), RoomJoined(reply.ack)),
          Event(ToRoom(roomId), PlayerJoined(roomId, players,
            if |players| == 2 then Some(StateOf(room)) else None))]
    {
      if roomId !in rooms {
        return Failed(RoomNotFound), [];
      }
      var room := rooms[roomId];
      if |room.players| >= 2 {
        return Failed(RoomFull), [];
      }
      JoinKeepsInvariant(room, Player(socketId, O, false));
      room := room.(players := room.players + [Player(socketId, O, false)]);
      ReplaceKeepsInvariant(rooms, order, roomId, room);
      rooms := rooms[roomId := room];
      var ack := RoomAck(roomId, socketId, O, false);
      var gameState := if |room.players| == 2 then Some(StateOf(room)) else None;
      events := [
        Event(ToSocket(socketId), RoomJoined(ack)),
        Event(ToRoom(roomId), PlayerJoined(roomId, room.players, gameState))];
      reply := Joined(ack);
    }

    /**
     * make-move: ignored unless every guard passes; an accepted move is
     * applied to the room and broadcast with the move itself.
     */
    method MakeMove(socketId: string, roomId: string, index: int, player: Mark) returns (events: seq<Event>)
      requires Valid()
      modifies this
      ensures Valid() && order == old(order)
      ensures !(roomId in old(rooms) && MoveAccepted(old(rooms)[roomId], socketId, index, player)) ==>
        rooms == old(rooms) && events == []
      ensures roomId in old(rooms) && MoveAccepted(old(rooms)[roomId], socketId, index, player) ==>
        rooms == old(rooms)[roomId := Play(old(rooms)[roomId], index, player)] &&
        events == [Event(ToRoom(roomId), MoveMade(StateOf(rooms[roomId]), index, player))]
    {
      if roomId !in rooms {
        return [];
      }
      var room := rooms[roomId];
      if !(0 <= index < 9) || room.board[index] != Empty {
        return [];
      }
      if room.currentTurn != player {
        return [];
      }
      if room.winner != NoWinner {
        return [];
      }
      var playerData := FindPlayer(room.players, socketId);
      if playerData.None? || playerData.value.symbol != player {
        return [];
      }
      PlayPreservesInvariant(room, socketId, index, player);
      var board := room.board[index := Taken(player)];
      var result := CheckWinner(board);
      if result.winner != NoWinner {
        room := room.(board := board, winner := result.winner, winningLine := result.line);
      } else {
        room := room.(board := board, currentTurn := Other(room.currentTurn));
      }
      ReplaceKeepsInvariant(rooms, order, roomId, room);
      rooms := rooms[roomId := room];
      events := [Event(ToRoom(roomId), MoveMade(StateOf(room), index, player))];
    }

    /** reset-game: any caller restarts an existing room's game; the players stay. */
    method Reset(roomId: string) returns (events: seq<Event>)
      requires Valid()
      modifies this
      ensures Valid() && order == old(order)
      ensures roomId !in old(rooms) ==> rooms == old(rooms) && events == []
      ensures roomId in old(rooms) ==>
        rooms == old(rooms)[roomId := Restart(old(rooms)[roomId])] &&
        events == [Event(ToRoom(roomId), GameReset(EmptyBoard, X))]
    {
      if roomId !in rooms {
        return [];
      }
      var room := rooms[roomId];
      RestartInvariant(room);
      room := room.(board := EmptyBoard, currentTurn := X, winner := NoWinner, winningLine := []);
      ReplaceKeepsInvariant(rooms, order, roomId, room);
      rooms := rooms[roomId := room];
      events := [Event(ToRoom(roomId), GameReset(room.board, room.currentTurn))];
    }

    /**
     * start-game: like reset, but only for the host of a room with at least
     * two players, and announced as a start.
     */
    method Start(socketId: string, roomId: string) returns (events: seq<Event>)
      requires Valid()
      modifies this
      ensures Valid() && order == old(order)
      ensures var allowed := roomId in old(rooms) &&
          var p := FindPlayer(old(rooms)[roomId].players, socketId);
          p.Some? && p.value.isHost && |old(rooms)[roomId].players| >= 2;
        (!allowed ==> rooms == old(rooms) && events == []) &&
        (allowed ==>
          rooms == old(rooms)[roomId := Restart(old(rooms)[roomId])] &&
          events == [Event(ToRoom(roomId), GameStarted(EmptyBoard, X))])
    {
      if roomId !in rooms {
        return [];
      }
      var room := rooms[roomId];
      var playerData := FindPlayer(room.players, socketId);
      if playerData.None? || !playerData.value.isHost {
        return [];
      }
      if |room.players| < 2 {
        return [];
      }
      RestartInvariant(room);
      room := room.(board := EmptyBoard, currentTurn := X, winner := NoWinner, winningLine := []);
      ReplaceKeepsInvariant(rooms, order, roomId, room);
      rooms := rooms[roomId := room];
      events := [Event(ToRoom(roomId), GameStarted(room.board, room.currentTurn))];
    }

    /**
     * disconnect: removes the first entry of the socket from each room
     * holding it, notifies the rest of that room, and deletes the rooms left
     * empty; rooms without the socket are untouched.
     */
    method Disconnect(socketId: string) returns (events: seq<Event>)
      requires Valid()
      modifies this
      ensures Valid()
      ensures rooms == AfterDisconnect(old(rooms), socketId)
      ensures order == Kept(old(rooms), old(order), socketId)
      ensures events == LeftEvents(old(rooms), old(order), socketId)
    {
      assert forall j :: 0 <= j < |order| ==> order[j] in rooms;
      ghost var rooms0, order0 := rooms, order;
      rooms, order, events := Sweep(rooms, order, socketId);
      KeptDistinct(rooms0, order0, socketId);
      forall id | id in rooms ensures id in order && rooms[id].roomId == id && RoomInvariant(rooms[id]) {
        KeptMember(rooms0, order0, socketId, id);
        LeavePreservesInvariant(rooms0[id], socketId);
      }
      forall id | id in order ensures id in rooms {
        KeptMember(rooms0, order0, socketId, id);
      }
    }
  }
}
