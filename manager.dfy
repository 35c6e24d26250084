/** The server's in-memory registry of game rooms (`GameManager`). */
module Manager {
  import opened Wrappers
  import opened Cards
  import opened Deck
  import opened Board
  import opened Selection
  import opened Search

  /** Rooms idle for more than two hours are swept away. */
  const RoomTtlMs: int := 2 * 60 * 60 * 1000

  /** Number of colours in the player palette. */
  const PaletteSize: nat := 6

  /** The board is refilled towards twelve cards after a set is taken. */
  const BoardTarget: int := 12

  /** Cards dealt when a game starts. */
  const InitialBoard: int := 12

  /** `color` is the palette slot the player was given. */
  datatype Player = Player(id: string, name: string, score: nat, color: nat)

  datatype Room = Room(
    id: string,
    players: seq<Player>,
    deck: seq<Card>,
    board: seq<Card>,
    gameStarted: bool,
    gameOver: bool,
    selections: map<string, seq<nat>>,
    lastActivity: int)

  /**
   * The failures the server reports: "Room not found", "Game not started", "Invalid card
   * index", "Already selected 3 cards" and "Not enough cards in deck".
   */
  datatype Failure = RoomNotFound | GameNotStarted | InvalidCardIndex | SelectionFull | NotEnoughCards

  /** `{ success, message?, selectedCards? }` of `selectCard`. */
  datatype SelectResult = Selected(selectedCards: seq<nat>) | SelectFailed(failure: Failure)

  /** `{ isValid: false }` before any check, or the full answer of `checkSet`. */
  datatype CheckResult =
    | NotChecked
    | Checked(isValid: bool, playerName: string, cards: seq<Card>, score: nat)

  /** `{ success, message? }` of `add3Cards`. */
  datatype AddResult = Added | AddFailed(failure: Failure)

  /** The snapshot `getGameState` hands out; the deck is shown only by its size. */
  datatype GameState = GameState(
    roomId: string,
    players: seq<Player>,
    board: seq<Card>,
    deckSize: nat,
    gameStarted: bool,
    gameOver: bool,
    winner: Option<Player>,
    selections: map<string, seq<nat>>)

  /** `getPlayerColor`: the palette slot for the player joining at position `index`. */
  function PlayerColor(index: nat): (slot: nat)
    ensures slot < PaletteSize
  {
    index % PaletteSize
  }

  /** Six players in a row get six different colours, and the seventh repeats the first. */
  lemma PlayerColorCycle(i: nat, j: nat)
    requires i < j
    ensures j < i + PaletteSize ==> PlayerColor(i) != PlayerColor(j)
    ensures j == i + PaletteSize ==> PlayerColor(i) == PlayerColor(j)
  {
  }

  /** The room `createRoom` inserts: no players, no cards, not started. */
  function NewRoom(id: string, now: int): Room {
    Room(id, [], [], [], false, false, map[], now)
  }

  /** `room.selections.get(playerId) || []`. */
  function SelectionOf(room: Room, playerId: string): seq<nat> {
    if playerId in room.selections then room.selections[playerId] else []
  }

  /**
   * What holds of every stored room: each selection has at most three distinct positions
   * on the current board, no card is in the deck and on the board, or in either twice, and
   * a finished game has an empty deck and no set left on the board.
   */
  ghost predicate RoomValid(room: Room) {
    (forall p :: p in room.selections ==> SelectionOk(room.selections[p], |room.board|)) &&
    NoRepeats(room.deck + room.board) &&
    (room.gameOver ==> room.deck == [] && NoSet(room.board))
  }

  /** `players.find(p => p.id === id)`, as a position; -1 when there is none. */
  function FindPlayer(players: seq<Player>, id: string): (k: int)
    ensures -1 <= k < |players|
    ensures k == -1 <==> forall t :: 0 <= t < |players| ==> players[t].id != id
    ensures k >= 0 ==> players[k].id == id && forall t :: 0 <= t < k ==> players[t].id != id
  {
    if players == [] then -1
    else if players[0].id == id then 0
    else
      var k := FindPlayer(players[1..], id);
      if k < 0 then -1 else k + 1
  }

  /**
   * The `reduce` of `getGameState`: a later player replaces the best so far only with a
   * strictly higher score, so the winner is the first player holding the top score.
   */
  function WinnerIndex(players: seq<Player>): (w: nat)
    requires |players| > 0
    ensures w < |players|
    ensures forall t :: 0 <= t < |players| ==> players[t].score <= players[w].score
    ensures forall t :: 0 <= t < w ==> players[t].score < players[w].score
  {
    if |players| == 1 then 0
    else
      var last := |players| - 1;
      var best := WinnerIndex(players[..last]);
      if players[last].score > players[best].score then last else best
  }

  /** `players.filter(p => p.id !== id)`. */
  function WithoutPlayer(players: seq<Player>, id: string): (r: seq<Player>)
    ensures |r| <= |players|
    ensures forall p :: p in r <==> p in players && p.id != id
    ensures forall p :: multiset(r)[p] == if p.id == id then 0 else multiset(players)[p]
  {
    if players == [] then []
    else
      var rest := WithoutPlayer(players[1..], id);
      assert players == [players[0]] + players[1..];
      if players[0].id == id then rest else [players[0]] + rest
  }

  /** `filter` works element by element, so it keeps the players' order. */
  lemma {:induction false} WithoutPlayerAppend(a: seq<Player>, b: seq<Player>, id: string)
    ensures WithoutPlayer(a + b, id) == WithoutPlayer(a, id) + WithoutPlayer(b, id)
    decreases |a|
  {
    if a == [] {
      assert a + b == b;
    } else {
      assert (a + b)[1..] == a[1..] + b;
      WithoutPlayerAppend(a[1..], b, id);
    }
  }

  /** `room.players.forEach(player => player.score = 0)`. */
  method ResetScores(players: seq<Player>) returns (reset: seq<Player>)
    ensures |reset| == |players|
    ensures forall t :: 0 <= t < |players| ==> reset[t] == players[t].(score := 0)
  {
    reset := players;
    for t := 0 to |players|
      invariant |reset| == |players|
      invariant forall u :: 0 <= u < t ==> reset[u] == players[u].(score := 0)
      invariant forall u :: t <= u < |players| ==> reset[u] == players[u]
    {
      reset := reset[t := reset[t].(score := 0)];
    }
  }

  function Min(a: int, b: int): int {
    if a < b then a else b
  }

  /** How many cards `checkSet` asks for once `remaining` cards are left on the board. */
  function Refill(remaining: nat): int {
    Min(3, BoardTarget - remaining)
  }

  /**
   * Board size after a set leaves a board of `boardLen` cards and the refill is dealt from a
   * deck of `deckLen`: the refill never makes the deck negative, and with three cards in the
   * deck a board of twelve or fewer is restored to its size, a larger one shrinks towards
   * twelve.
   */
  lemma RefillSize(boardLen: nat, deckLen: nat)
    requires boardLen >= 3
    ensures Dealt(Refill(boardLen - 3), deckLen) <= deckLen
    ensures deckLen >= 3 ==>
      boardLen - 3 + Dealt(Refill(boardLen - 3), deckLen) ==
        if boardLen <= BoardTarget then boardLen
        else if boardLen - 3 < BoardTarget then BoardTarget
        else boardLen - 3
  {
  }

  /**
   * The three cards of a matched set never come back: each sat on the board once, is
   * removed from it, and is not in the deck the board is refilled from.
   */
  lemma MatchedCardsLeave(deck: seq<Card>, board: seq<Card>, sel: seq<nat>, m: nat)
    requires NoRepeats(deck + board)
    requires forall t :: 0 <= t < |sel| ==> sel[t] < |board|
    requires m <= |deck|
    ensures forall t :: 0 <= t < |sel| ==>
      board[sel[t]] !in RemoveIndices(board, Elements(sel)) + Drawn(deck, m)
  {
    forall t | 0 <= t < |sel|
      ensures board[sel[t]] !in RemoveIndices(board, Elements(sel)) + Drawn(deck, m)
    {
      var c := board[sel[t]];
      assert multiset(deck + board) == multiset(deck) + multiset(board);
      assert multiset(deck + board)[c] <= 1;
      assert c in board;
      assert multiset(board)[c] == 1;
      assert c !in deck;
      DroppedIsGone(board, Elements(sel), 0, sel[t]);
    }
  }

  /** Taking cards off the board and moving cards from deck to board never creates a repeat. */
  lemma RefillKeepsNoRepeats(deck: seq<Card>, board: seq<Card>, kept: seq<Card>, deck': seq<Card>, board': seq<Card>)
    requires NoRepeats(deck + board)
    requires multiset(kept) <= multiset(board)
    requires multiset(deck') + multiset(board') == multiset(deck) + multiset(kept)
    ensures NoRepeats(deck' + board')
  {
    assert multiset(deck' + board') == multiset(deck') + multiset(board');
    assert multiset(deck + board) == multiset(deck) + multiset(board);
    forall x ensures multiset(deck' + board')[x] <= 1 {
      assert multiset(deck + board)[x] <= 1;
    }
  }

  /** Removing board positions and then dealing `m` cards from the deck never creates a repeat. */
  lemma RemoveAndRefillKeepsNoRepeats(deck: seq<Card>, board: seq<Card>, drop: set<nat>, m: nat)
    requires NoRepeats(deck + board)
    requires m <= |deck|
    ensures NoRepeats(deck[..|deck| - m] + (RemoveIndices(board, drop) + Drawn(deck, m)))
  {
    var kept := RemoveIndices(board, drop);
    KeepIsSubMultiset(board, drop, 0);
    DealtConserves(deck, kept, m);
    RefillKeepsNoRepeats(deck, board, kept, deck[..|deck| - m], kept + Drawn(deck, m));
  }

  /** Three distinct board positions whose cards form a set give the board a set triple. */
  lemma SelectedSetOnBoard(board: seq<Card>, x: nat, y: nat, z: nat)
    requires x < |board| && y < |board| && z < |board|
    requires x != y && y != z && x != z
    requires IsValidSet([board[x], board[y], board[z]])
    ensures !NoSet(board)
  {
    var a, b, c := board[x], board[y], board[z];
    IsValidSetOrderFree(a, b, c);
    var t: Triple;
    if x < y < z {
      t := Triple(x, y, z);
    } else if x < z < y {
      t := Triple(x, z, y);
    } else if y < x < z {
      t := Triple(y, x, z);
    } else if z < y < x {
      t := Triple(z, y, x);
    } else if y < z < x {
      IsValidSetOrderFree(b, a, c);
      t := Triple(y, z, x);
    } else {
      IsValidSetOrderFree(c, b, a);
      t := Triple(z, x, y);
    }
    assert IsSetTriple(board, t);
  }

  /** The room after a valid set: `checkSet` lines that score, remove, refill and end the game. */
  ghost function AfterSet(room: Room, sel: seq<nat>, k: nat): Room
    requires k < |room.players|
  {
    var kept := RemoveIndices(room.board, Elements(sel));
    var m := Dealt(Refill(|kept|), |room.deck|);
    var deck := room.deck[..|room.deck| - m];
    var board := kept + Drawn(room.deck, m);
    room.(players := room.players[k := room.players[k].(score := room.players[k].score + 1)],
          board := board,
          deck := deck,
          gameOver := room.gameOver || (deck == [] && NoSet(board)))
  }

  /** A valid set scores one point for the player who called it and for nobody else. */
  lemma AfterSetScores(room: Room, sel: seq<nat>, k: nat)
    requires k < |room.players|
    ensures |AfterSet(room, sel, k).players| == |room.players|
    ensures AfterSet(room, sel, k).players[k].score == room.players[k].score + 1
    ensures forall t :: 0 <= t < |room.players| && t != k ==>
      AfterSet(room, sel, k).players[t] == room.players[t]
  {
  }

  /**
   * On a room whose finished game has no set left, taking a set is only possible in a game
   * that is not over, so afterwards the game is over exactly when the deck is empty and the
   * board holds no set.
   */
  lemma AfterSetGameOver(room: Room, sel: seq<nat>, k: nat)
    requires room.gameOver ==> NoSet(room.board)
    requires |sel| == 3 && SelectionOk(sel, |room.board|)
    requires IsValidSet([room.board[sel[0]], room.board[sel[1]], room.board[sel[2]]])
    requires k < |room.players|
    ensures !room.gameOver
    ensures AfterSet(room, sel, k).gameOver <==>
      AfterSet(room, sel, k).deck == [] && NoSet(AfterSet(room, sel, k).board)
  {
    SelectedSetOnBoard(room.board, sel[0], sel[1], sel[2]);
  }

  /**
   * Three cards leave the board and the refill only moves cards from deck to board; with
   * three cards in the deck a board of twelve or fewer keeps its size and a larger one
   * shrinks towards twelve.
   */
  lemma AfterSetSizes(room: Room, sel: seq<nat>, k: nat)
    requires |sel| == 3 && SelectionOk(sel, |room.board|)
    requires k < |room.players|
    ensures |AfterSet(room, sel, k).board| + |AfterSet(room, sel, k).deck| == |room.board| + |room.deck| - 3
    ensures |AfterSet(room, sel, k).deck| ==
      |room.deck| - Dealt(Min(3, BoardTarget - (|room.board| - 3)), |room.deck|)
    ensures |room.deck| >= 3 ==>
      |AfterSet(room, sel, k).board| ==
        if |room.board| <= BoardTarget then |room.board|
        else if |room.board| - 3 < BoardTarget then BoardTarget
        else |room.board| - 3
    ensures |room.deck| < 3 && |room.board| <= BoardTarget ==>
      AfterSet(room, sel, k).deck == [] &&
      |AfterSet(room, sel, k).board| == |room.board| - 3 + |room.deck|
  {
    var desc := SortDescending(sel);
    assert Elements(desc) == Elements(sel);
    RemoveSortedLength(room.board, desc);
    RefillSize(|room.board|, |room.deck|);
  }

  /** A valid set keeps every card in the deck or on the board at most once. */
  lemma AfterSetNoRepeats(room: Room, sel: seq<nat>, k: nat)
    requires NoRepeats(room.deck + room.board)
    requires k < |room.players|
    ensures NoRepeats(AfterSet(room, sel, k).deck + AfterSet(room, sel, k).board)
  {
    var kept := RemoveIndices(room.board, Elements(sel));
    var m := Dealt(Refill(|kept|), |room.deck|);
    RemoveAndRefillKeepsNoRepeats(room.deck, room.board, Elements(sel), m);
  }

  /** The three matched cards are gone from the board after a valid set, refill included. */
  lemma AfterSetDropsMatched(room: Room, sel: seq<nat>, k: nat)
    requires NoRepeats(room.deck + room.board)
    requires |sel| == 3 && SelectionOk(sel, |room.board|)
    requires k < |room.players|
    ensures forall t :: 0 <= t < |sel| ==> room.board[sel[t]] !in AfterSet(room, sel, k).board
  {
    var kept := RemoveIndices(room.board, Elements(sel));
    var m := Dealt(Refill(|kept|), |room.deck|);
    MatchedCardsLeave(room.deck, room.board, sel, m);
  }

  /**
   * The valid-set branch of `checkSet`: award the point, splice the three positions out in
   * descending order, deal `min(3, 12 - board.length, deck.length)` cards, and mark the
   * game over when the deck is empty and no set is left.
   */
  method TakeSet(room: Room, sel: seq<nat>, k: nat) returns (after: Room)
    requires |sel| == 3 && SelectionOk(sel, |room.board|)
    requires k < |room.players|
    ensures after == AfterSet(room, sel, k)
  {
    var player := room.players[k];
    var players := room.players[k := player.(score := player.score + 1)];
    var desc := SortDescending(sel);
    assert Elements(desc) == Elements(sel);
    var kept := RemoveDescending(room.board, desc);
    var cardsToAdd := Min(3, Min(BoardTarget - |kept|, |room.deck|));
    assert Dealt(cardsToAdd, |room.deck|) == Dealt(Refill(|kept|), |room.deck|);
    var deck', board' := DealCards(room.deck, kept, cardsToAdd);
    var sets := FindSets(board');
    assert (sets == []) == NoSet(board') by {
      assert sets != [] ==> IsSetTriple(board', sets[0]);
    }
    after := room.(players := players, board := board', deck := deck',
                   gameOver := room.gameOver || (|deck'| == 0 && |sets| == 0));
  }

  /** A room is stale when it has been idle for longer than the time-to-live. */
  predicate IsStale(room: Room, now: int) {
    now - room.lastActivity > RoomTtlMs
  }

  /** The ids of a list of players. */
  function IdsOf(players: seq<Player>): set<string> {
    set p | p in players :: p.id
  }

  /** The ids of the players of the stale rooms among `keys`. */
  ghost function EvictedIds(rs: map<string, Room>, keys: set<string>, now: int): set<string> {
    set r, id | r in keys && r in rs && IsStale(rs[r], now) && id in IdsOf(rs[r].players) :: id
  }

  /** The rooms a sweep keeps: the ones not yet visited and the ones still fresh. */
  ghost function Surviving(rs: map<string, Room>, pending: set<string>, now: int): map<string, Room> {
    map r | r in rs && (r in pending || !IsStale(rs[r], now)) :: rs[r]
  }

  /** Every room is stored under its own id and is well formed. */
  ghost predicate RoomsValid(rs: map<string, Room>) {
    forall r :: r in rs ==> rs[r].id == r && RoomValid(rs[r])
  }

  /** Storing a well-formed room under its own id keeps every room well formed. */
  lemma StoreValid(rs: map<string, Room>, room: Room)
    requires RoomsValid(rs) && RoomValid(room)
    ensures RoomsValid(rs[room.id := room])
  {
  }

  /** Dealing from a room's deck onto its board keeps the room well formed. */
  lemma DealKeepsValid(room: Room, m: nat)
    requires RoomValid(room) && m <= |room.deck|
    ensures RoomValid(room.(deck := room.deck[..|room.deck| - m], board := room.board + Drawn(room.deck, m)))
  {
    if room.gameOver {
      assert room.board + Drawn(room.deck, m) == room.board;
    }
    DealtConserves(room.deck, room.board, m);
    RefillKeepsNoRepeats(room.deck, room.board, room.board, room.deck[..|room.deck| - m], room.board + Drawn(room.deck, m));
  }

  /** A sweep only drops rooms, so what remains stays well formed. */
  lemma SurvivingValid(rs: map<string, Room>, pending: set<string>, now: int)
    requires RoomsValid(rs)
    ensures RoomsValid(Surviving(rs, pending, now))
  {
  }

  /** Removing two sets of keys one after the other removes their union. */
  lemma MinusTwice(m: map<string, string>, a: set<string>, b: set<string>)
    ensures m - a - b == m - (a + b)
  {
  }

  /** Visiting one more room removes it exactly when it is stale. */
  lemma SurvivingStep(rs: map<string, Room>, pending: set<string>, r: string, now: int)
    requires r in pending && r in rs
    ensures Surviving(rs, pending - {r}, now) ==
      if IsStale(rs[r], now) then Surviving(rs, pending, now) - {r} else Surviving(rs, pending, now)
  {
  }

  /** Visiting one more room adds its players' ids exactly when it is stale. */
  lemma EvictedStep(rs: map<string, Room>, done: set<string>, r: string, now: int)
    requires r in rs
    ensures EvictedIds(rs, done + {r}, now) ==
      EvictedIds(rs, done, now) + if IsStale(rs[r], now) then IdsOf(rs[r].players) else {}
  {
  }

  /** The inner loop of the sweep: each of `players` loses its room mapping, nothing else does. */
  method ForgetPlayers(mappings: map<string, string>, players: seq<Player>) returns (m: map<string, string>)
    ensures m == mappings - IdsOf(players)
  {
    m := mappings;
    for t := 0 to |players|
      invariant m == mappings - IdsOf(players[..t])
    {
      assert players[..t + 1] == players[..t] + [players[t]];
      m := m - {players[t].id};
    }
    assert players[..|players|] == players;
  }

  /**
   * As written, the sweep forgets every listed player of a stale room. A player who joined
   * that room and then a second, live room still sits in the first room's list while its
   * mapping points at the second, so the sweep deletes a mapping to a room that stays;
   * the intended sweep keeps it.
   */
  lemma SweepDropsLiveMapping()
    ensures
      var x := Player("X", "X", 0, 0);
      var now := RoomTtlMs + 1;
      var rs := map["R1" := Room("R1", [x], [], [], false, false, map[], 0),
                    "R2" := Room("R2", [x], [], [], false, false, map[], now)];
      var pr := map["X" := "R2"];
      "R2" in Surviving(rs, {}, now) && x in rs["R2"].players &&
      "X" !in pr - EvictedIds(rs, rs.Keys, now) &&
      "X" in SweptMappings(rs, pr, now)
  {
    var x := Player("X", "X", 0, 0);
    var now := RoomTtlMs + 1;
    var rs := map["R1" := Room("R1", [x], [], [], false, false, map[], 0),
                  "R2" := Room("R2", [x], [], [], false, false, map[], now)];
    assert IsStale(rs["R1"], now) && !IsStale(rs["R2"], now);
    assert x.id in IdsOf(rs["R1"].players);
    assert "X" in EvictedIds(rs, rs.Keys, now);
  }

  /** The evidently intended sweep of the mappings: forget those that point at a deleted room. */
  ghost function SweptMappings(rs: map<string, Room>, pr: map<string, string>, now: int): (r: map<string, string>)
    ensures forall p :: p in r ==> p in pr && r[p] == pr[p]
  {
    map p | p in pr && !(pr[p] in rs && IsStale(rs[pr[p]], now)) :: pr[p]
  }

  /** The intended sweep keeps exactly the mappings whose room survives or was never stored. */
  lemma SweptMappingsKeepsLive(rs: map<string, Room>, pr: map<string, string>, now: int)
    ensures forall p :: p in pr && pr[p] in Surviving(rs, {}, now) ==> p in SweptMappings(rs, pr, now)
    ensures forall p :: p in SweptMappings(rs, pr, now) ==>
      pr[p] !in rs || pr[p] in Surviving(rs, {}, now)
  {
  }

  class GameManager {
    /** Room id to room. */
    var rooms: map<string, Room>
    /** Player id to the id of the room the player last joined. */
    var playerRooms: map<string, string>

    ghost predicate Valid()
      reads this
    {
      RoomsValid(rooms)
    }

    constructor ()
      ensures Valid()
      ensures rooms == map[] && playerRooms == map[]
    {
      rooms := map[];
      playerRooms := map[];
    }

    /** `getRoom`. */
    function GetRoom(roomId: string): (room: Option<Room>)
      reads this
      ensures room.None? <==> roomId !in rooms
      ensures room.Some? ==> room.value == rooms[roomId]
      ensures room.Some? && Valid() ==> room.value.id == roomId
    {
      if roomId in rooms then Some(rooms[roomId]) else None
    }

    /** `getRoomCount`. */
    function GetRoomCount(): (n: nat)
      reads this
      ensures n == 0 <==> rooms == map[]
    {
      |rooms|
    }

    /**
     * `createRoom`, with the generated id passed in: an empty room is stored under it,
     * replacing any room that had the same id.
     */
    method CreateRoom(roomId: string, now: int) returns (id: string)
      requires Valid()
      modifies this
      ensures Valid()
      ensures id == roomId
      ensures rooms == old(rooms)[roomId := NewRoom(roomId, now)]
      ensures playerRooms == old(playerRooms)
      ensures GetRoomCount() == old(GetRoomCount()) + if roomId in old(rooms) then 0 else 1
    {
      rooms := rooms[roomId := NewRoom(roomId, now)];
      id := roomId;
    }

    /** `addPlayerToRoom`: appends a fresh player with score 0 and records where it plays. */
    method AddPlayerToRoom(roomId: string, playerId: string, name: string) returns (player: Option<Player>)
      requires Valid()
      modifies this
      ensures Valid()
      ensures roomId !in old(rooms) ==>
        player == None && rooms == old(rooms) && playerRooms == old(playerRooms)
      ensures roomId in old(rooms) ==>
        var room := old(rooms)[roomId];
        player == Some(Player(playerId, name, 0, PlayerColor(|room.players|))) &&
        rooms == old(rooms)[roomId := room.(players := room.players + [player.value])] &&
        playerRooms == old(playerRooms)[playerId := roomId]
    {
      if roomId !in rooms {
        return None;
      }
      var room := rooms[roomId];
      var p := Player(playerId, name, 0, PlayerColor(|room.players|));
      rooms := rooms[roomId := room.(players := room.players + [p])];
      playerRooms := playerRooms[playerId := roomId];
      player := Some(p);
    }

    /**
     * `startGame`: a freshly shuffled full deck, scores back to 0, selections cleared, then
     * twelve cards dealt from the end of the deck. A missing room is left alone.
     */
    method StartGame(roomId: string, picks: seq<nat>, now: int)
      requires Valid()
      requires |picks| == DeckSize
      requires forall i :: 0 <= i < |picks| ==> picks[i] <= i
      modifies this
      ensures Valid()
      ensures playerRooms == old(playerRooms)
      ensures roomId !in old(rooms) ==> rooms == old(rooms)
      ensures roomId in old(rooms) ==>
        roomId in rooms && rooms == old(rooms)[roomId := rooms[roomId]] &&
        var before, after := old(rooms)[roomId], rooms[roomId];
        after.id == before.id &&
        |after.board| == 12 && |after.deck| == 69 &&
        (exists full ::
          |full| == DeckSize && IsFullDeck(full) &&
          after.deck == full[..69] && after.board == Drawn(full, 12)) &&
        |after.players| == |before.players| &&
        (forall t :: 0 <= t < |before.players| ==> after.players[t] == before.players[t].(score := 0)) &&
        after.selections == map[] &&
        after.gameStarted && !after.gameOver && after.lastActivity == now
    {
      if roomId !in rooms {
        return;
      }
      var room := rooms[roomId];
      var deck := CreateDeck(picks);
      var players := ResetScores(room.players);
      room := room.(deck := deck, board := [], gameStarted := true, gameOver := false,
                    selections := map[], lastActivity := now, players := players);
      assert RoomValid(room) by {
        FullDeckFacts(deck);
        assert deck + [] == deck;
      }
      assert Dealt(InitialBoard, |deck|) == 12;
      var deck', board' := DealCards(room.deck, room.board, InitialBoard);
      assert board' == Drawn(deck, 12);
      DealKeepsValid(room, 12);
      room := room.(deck := deck', board := board');
      StoreValid(rooms, room);
      rooms := rooms[roomId := room];
    }

    /**
     * `selectCard`: toggles `cardIndex` in the player's selection. Any call on a started
     * room records the activity, even one that then fails.
     */
    method SelectCard(roomId: string, playerId: string, cardIndex: int, now: int) returns (res: SelectResult)
      requires Valid()
      modifies this
      ensures Valid()
      ensures playerRooms == old(playerRooms)
      ensures roomId !in old(rooms) || !old(rooms)[roomId].gameStarted ==>
        res == SelectFailed(GameNotStarted) && rooms == old(rooms)
      ensures roomId in old(rooms) && old(rooms)[roomId].gameStarted ==>
        var room := old(rooms)[roomId];
        var touched := room.(lastActivity := now);
        var sel := SelectionOf(room, playerId);
        if cardIndex < 0 || cardIndex >= |room.board| then
          res == SelectFailed(InvalidCardIndex) && rooms == old(rooms)[roomId := touched]
        else if Toggle(sel, cardIndex).None? then
          res == SelectFailed(SelectionFull) && rooms == old(rooms)[roomId := touched]
        else
          res == Selected(Toggle(sel, cardIndex).value) &&
          rooms == old(rooms)[roomId := touched.(selections := room.selections[playerId := res.selectedCards])]
      ensures res.Selected? ==>
        |res.selectedCards| <= MaxSelected && Distinct(res.selectedCards) &&
        forall t :: 0 <= t < |res.selectedCards| ==> res.selectedCards[t] < |rooms[roomId].board|
    {
      if roomId !in rooms || !rooms[roomId].gameStarted {
        return SelectFailed(GameNotStarted);
      }
      var room := rooms[roomId].(lastActivity := now);
      StoreValid(rooms, room);
      rooms := rooms[roomId := room];
      if cardIndex < 0 || cardIndex >= |room.board| {
        return SelectFailed(InvalidCardIndex);
      }
      var sel := SelectionOf(room, playerId);
      var toggled := Toggle(sel, cardIndex);
      if toggled.None? {
        return SelectFailed(SelectionFull);
      }
      TogglePreservesOk(sel, cardIndex, |room.board|);
      StoreValid(rooms, room.(selections := room.selections[playerId := toggled.value]));
      rooms := rooms[roomId := room.(selections := room.selections[playerId := toggled.value])];
      res := Selected(toggled.value);
    }

    /** The player checking a full selection is in the room (the server dereferences it). */
    predicate CheckerPresent(roomId: string, playerId: string)
      reads this
    {
      roomId in rooms && |SelectionOf(rooms[roomId], playerId)| == 3 ==>
        FindPlayer(rooms[roomId].players, playerId) >= 0
    }

    /**
     * `checkSet`: with exactly three positions selected, judges the cards; on a set the
     * player scores, the three cards leave the board, the board is refilled towards twelve
     * from the deck's end and the game may end. Every selection in the room is cleared.
     */
    method CheckSet(roomId: string, playerId: string) returns (res: CheckResult)
      requires Valid()
      requires CheckerPresent(roomId, playerId)
      modifies this
      ensures Valid()
      ensures playerRooms == old(playerRooms)
      ensures roomId !in old(rooms) || |SelectionOf(old(rooms)[roomId], playerId)| != 3 ==>
        res == NotChecked && rooms == old(rooms)
      ensures roomId in old(rooms) && |SelectionOf(old(rooms)[roomId], playerId)| == 3 ==>
        var before := old(rooms)[roomId];
        var sel := before.selections[playerId];
        var cards := [before.board[sel[0]], before.board[sel[1]], before.board[sel[2]]];
        var k := FindPlayer(before.players, playerId);
        0 <= k && roomId in rooms && rooms == old(rooms)[roomId := rooms[roomId]] &&
        var after := rooms[roomId];
        res.Checked? && res.isValid == IsValidSet(cards) && res.cards == cards &&
        res.playerName == before.players[k].name &&
        (!res.isValid ==>
          after == before.(selections := map[]) && res.score == before.players[k].score) &&
        (res.isValid ==>
          after == AfterSet(before, sel, k).(selections := map[]) &&
          res.score == before.players[k].score + 1 &&
          forall c :: c in cards ==> c !in after.board)
    {
      if roomId !in rooms {
        return NotChecked;
      }
      var room := rooms[roomId];
      var selected := SelectionOf(room, playerId);
      if |selected| != 3 {
        return NotChecked;
      }
      var cards := [room.board[selected[0]], room.board[selected[1]], room.board[selected[2]]];
      var k := FindPlayer(room.players, playerId);
      var isValid := IsValidSet(cards);
      if isValid {
        AfterSetScores(room, selected, k);
        AfterSetNoRepeats(room, selected, k);
        AfterSetGameOver(room, selected, k);
        AfterSetDropsMatched(room, selected, k);
        room := TakeSet(room, selected, k);
      }
      room := room.(selections := map[]);
      StoreValid(rooms, room);
      rooms := rooms[roomId := room];
      res := Checked(isValid, room.players[k].name, cards, room.players[k].score);
    }

    /** `getHint`: the first set in scan order, or nothing. */
    method GetHint(roomId: string) returns (hint: Option<Triple>)
      ensures roomId !in rooms ==> hint == None
      ensures roomId in rooms ==> (hint == None <==> NoSet(rooms[roomId].board))
      ensures roomId in rooms && hint.Some? ==>
        IsSetTriple(rooms[roomId].board, hint.value) &&
        forall t :: IsSetTriple(rooms[roomId].board, t) && t != hint.value ==> LexLess(hint.value, t)
    {
      if roomId !in rooms {
        return None;
      }
      var sets := FindSets(rooms[roomId].board);
      if |sets| == 0 {
        assert NoSet(rooms[roomId].board);
        return None;
      }
      hint := Some(sets[0]);
      assert IsSetTriple(rooms[roomId].board, sets[0]);
      forall t | IsSetTriple(rooms[roomId].board, t) && t != sets[0] ensures LexLess(sets[0], t) {
        var b :| 0 <= b < |sets| && sets[b] == t;
      }
    }

    /** `add3Cards`: three more cards from the deck's end, if the room exists and has them. */
    method Add3Cards(roomId: string) returns (res: AddResult)
      requires Valid()
      modifies this
      ensures Valid()
      ensures playerRooms == old(playerRooms)
      ensures roomId !in old(rooms) ==> res == AddFailed(RoomNotFound) && rooms == old(rooms)
      ensures roomId in old(rooms) && |old(rooms)[roomId].deck| < 3 ==>
        res == AddFailed(NotEnoughCards) && rooms == old(rooms)
      ensures roomId in old(rooms) && |old(rooms)[roomId].deck| >= 3 ==>
        var before := old(rooms)[roomId];
        res == Added &&
        rooms == old(rooms)[roomId := before.(
          deck := before.deck[..|before.deck| - 3],
          board := before.board + Drawn(before.deck, 3))]
    {
      if roomId !in rooms {
        return AddFailed(RoomNotFound);
      }
      var room := rooms[roomId];
      if |room.deck| < 3 {
        return AddFailed(NotEnoughCards);
      }
      assert Dealt(3, |room.deck|) == 3;
      var deck', board' := DealCards(room.deck, room.board, 3);
      var updated := room.(deck := deck', board := board');
      assert RoomValid(updated) && updated.id == roomId by {
        DealKeepsValid(room, 3);
      }
      StoreValid(rooms, updated);
      rooms := rooms[roomId := updated];
      res := Added;
    }

    /** `getGameState`: a snapshot of the room, with a winner once the game is over. */
    function GetGameState(roomId: string): (state: Option<GameState>)
      reads this
      ensures state.None? <==> roomId !in rooms
      ensures state.Some? ==>
        var room, view := rooms[roomId], state.value;
        view.roomId == room.id && view.gameStarted == room.gameStarted &&
        view.gameOver == room.gameOver &&
        view.deckSize == |room.deck| && view.board == room.board &&
        view.players == room.players && view.selections == room.selections &&
        (view.winner.Some? <==> room.gameOver && |room.players| > 0) &&
        (view.winner.Some? ==>
          exists w :: 0 <= w < |room.players| && view.winner.value == room.players[w] &&
            (forall t :: 0 <= t < |room.players| ==> room.players[t].score <= room.players[w].score) &&
            (forall t :: 0 <= t < w ==> room.players[t].score < room.players[w].score))
    {
      if roomId !in rooms then None
      else
        var room := rooms[roomId];
        var winner := if room.gameOver && |room.players| > 0
                      then Some(room.players[WinnerIndex(room.players)]) else None;
        Some(GameState(room.id, room.players, room.board, |room.deck|, room.gameStarted,
                       room.gameOver, winner, room.selections))
    }

    /**
     * `removePlayer`: forgets the player, drops it and its selection from its room, and
     * deletes the room when nobody is left. An untracked player, or one mapped to the
     * empty room id (which JavaScript treats as false), gives nothing and changes nothing.
     */
    method RemovePlayer(playerId: string) returns (roomId: Option<string>)
      requires Valid()
      modifies this
      ensures Valid()
      ensures playerId !in old(playerRooms) || old(playerRooms)[playerId] == "" ==>
        roomId == None && rooms == old(rooms) && playerRooms == old(playerRooms)
      ensures playerId in old(playerRooms) && old(playerRooms)[playerId] != "" ==>
        var rid := old(playerRooms)[playerId];
        roomId == Some(rid) &&
        playerRooms == old(playerRooms) - {playerId} &&
        (rid !in old(rooms) ==> rooms == old(rooms)) &&
        (rid in old(rooms) ==>
          var before := old(rooms)[rid];
          var remaining := WithoutPlayer(before.players, playerId);
          if remaining == [] then rooms == old(rooms) - {rid}
          else rooms == old(rooms)[rid := before.(players := remaining,
                                                  selections := before.selections - {playerId})])
    {
      if playerId !in playerRooms || playerRooms[playerId] == "" {
        return None;
      }
      var rid := playerRooms[playerId];
      if rid in rooms {
        var room := rooms[rid];
        room := room.(players := WithoutPlayer(room.players, playerId),
                      selections := room.selections - {playerId});
        if room.players == [] {
          rooms := rooms - {rid};
        } else {
          rooms := rooms[rid := room];
        }
      }
      playerRooms := playerRooms - {playerId};
      roomId := Some(rid);
    }

    /**
     * `cleanupStaleRooms`, run by the server's timer, with the clock passed in: every room
     * idle for longer than the time-to-live goes, and so do its players' room mappings.
     */
    method CleanupStaleRooms(now: int)
      requires Valid()
      modifies this
      ensures Valid()
      ensures rooms == map r | r in old(rooms) && !IsStale(old(rooms)[r], now) :: old(rooms)[r]
      ensures playerRooms == old(playerRooms) - EvictedIds(old(rooms), old(rooms).Keys, now)
    {
      var pending := rooms.Keys;
      ghost var done: set<string> := {};
      while pending != {}
        invariant pending !! done && pending + done == old(rooms).Keys
        invariant rooms == Surviving(old(rooms), pending, now)
        invariant playerRooms == old(playerRooms) - EvictedIds(old(rooms), done, now)
        decreases pending
      {
        var roomId :| roomId in pending;
        var room := rooms[roomId];
        SurvivingStep(old(rooms), pending, roomId, now);
        EvictedStep(old(rooms), done, roomId, now);
        if now - room.lastActivity > RoomTtlMs {
          MinusTwice(old(playerRooms), EvictedIds(old(rooms), done, now), IdsOf(room.players));
          playerRooms := ForgetPlayers(playerRooms, room.players);
          rooms := rooms - {roomId};
        }
        pending := pending - {roomId};
        done := done + {roomId};
      }
      assert done == old(rooms).Keys;
      SurvivingValid(old(rooms), {}, now);
    }
  }
}
