# Set game room manager, in Dafny

This project models the `GameManager` of the multiplayer Set server. The manager is an
in-memory registry of game rooms. It holds a map from room id to room and a reverse map
from player id to the room that player last joined. Each room holds:

- a deck and a board of cards (each card has four attributes with three values each);
- its players, with names, scores and palette colours;
- each player's selection of board positions;
- whether the game has started or ended, and when the room was last active.

The model follows the source file by file:

- `cards.dfy` (`Cards`): the card value type and the set rule (`isValidSet`).
- `deck.dfy` (`Deck`): building the 81-card deck (`createDeck`), the in-place
  Fisher-Yates shuffle on an array (`shuffleArray`) and dealing from the deck's end
  (`dealCards`).
- `board.dfy` (`Board`): splicing matched positions out of the board in descending order,
  proved against a reference definition of "the board without these positions".
- `selection.dfy` (`Selection`): toggling one board position in a player's selection,
  and sorting a full selection in descending order.
- `search.dfy` (`Search`): the triple-nested search for every set on a board (`findSets`).
- `manager.dfy` (`Manager`): the room and result datatypes, the valid-set branch of
  `checkSet`, and the class `GameManager` with one method per operation. The methods
  update the `rooms` and `playerRooms` maps in place.

`GameManager.Valid()` is the invariant every operation keeps. Every room is stored under
its own id. Every stored selection has at most three distinct positions, each below the
board's length. No card appears twice across a room's deck and board. A finished game
has an empty deck and no set left on its board. `checkSet` relies on the selection part:
it reads `board[i]` with no bounds check and splices positions in descending order.

The clock, the random shuffle and room-id generation are parameters:

- `now` is the current time in milliseconds.
- `picks[i]` is the index `Math.floor(Math.random() * (i + 1))` drawn at shuffle step
  `i`, so `picks[i] <= i`.
- The caller supplies the room id.

## Model

| member | source | states |
|---|---|---|
| `Cards.AllDifferentIff` | set-game-multiplayer/server/gameManager.js:211 | a `Set` of the three values has size 3 exactly when the values are pairwise distinct |
| `Cards.IsValidSetIff` | set-game-multiplayer/server/gameManager.js:203-219 | three cards are a set iff, for each of number, shape, colour and shading, the values are all equal or pairwise distinct; any other number of cards is not a set |
| `Cards.TwoValuesDisagree` | set-game-multiplayer/server/gameManager.js:210-213 | three values of which exactly two are distinct are neither all equal nor all distinct |
| `Cards.TwoAndOneFails` | set-game-multiplayer/server/gameManager.js:210-215 | an attribute on which the three cards take exactly two values, whichever card is the odd one, makes the triple fail |
| `Cards.IsValidSetOrderFree` | set-game-multiplayer/server/gameManager.js:203-219 | whether three cards form a set does not depend on their order |
| `Deck.PositionInjective` | set-game-multiplayer/server/gameManager.js:99-103 | the nested loops give each card its own position below 81 |
| `Deck.OrderedDeckIsFull` | set-game-multiplayer/server/gameManager.js:98-107 | a deck laid out position by position holds each of the 81 cards exactly once |
| `Deck.CreateDeck` | set-game-multiplayer/server/gameManager.js:92-110 | builds the Cartesian product in loop order, then shuffles it: the result has 81 cards and every possible card exactly once |
| `Deck.FisherYates` | set-game-multiplayer/server/gameManager.js:114-117 | reference definition of the swap sequence from the last index down to 1; keeps the length |
| `Deck.FisherYatesPermutes` | set-game-multiplayer/server/gameManager.js:114-117 | the swaps only reorder: same multiset as the input |
| `Deck.ShuffleArray` | set-game-multiplayer/server/gameManager.js:112-119 | copies the input into a fresh array, swaps in place and returns exactly the reference shuffle, a permutation of the input |
| `Deck.Dealt` | set-game-multiplayer/server/gameManager.js:122 | the loop stops only when it has moved `count` cards or the deck is empty, so it moves the largest number within both bounds: none for a count of 0 or less |
| `Deck.Drawn` | set-game-multiplayer/server/gameManager.js:123 | the i-th card dealt is the i-th card from the deck's end |
| `Deck.DrawnIsSuffix` | set-game-multiplayer/server/gameManager.js:123 | the m cards dealt are, counted with multiplicity, exactly the deck's last m cards |
| `Deck.DealtConserves` | set-game-multiplayer/server/gameManager.js:121-125 | deck and board together keep the same cards when cards are dealt |
| `Deck.DealCards` | set-game-multiplayer/server/gameManager.js:121-125 | pops `min(count, deck length)` cards (none for count <= 0) from the deck's end onto the board's end; the deck keeps its prefix; deck and board together keep the same cards |
| `Board.RemoveAt` | set-game-multiplayer/server/gameManager.js:179 | `splice(k, 1)` shortens by one and shifts later elements down |
| `Board.RemoveBelowDropped` | set-game-multiplayer/server/gameManager.js:177-180 | splicing position d after every larger dropped position removes original position d, which is why the indices are sorted in descending order |
| `Board.RemoveSortedLength` | set-game-multiplayer/server/gameManager.js:177-180 | removing distinct in-range positions shortens the board by their number |
| `Board.KeepIsSubMultiset` | set-game-multiplayer/server/gameManager.js:178-180 | removal only drops cards and never adds one |
| `Board.DroppedIsGone` | set-game-multiplayer/server/gameManager.js:178-180 | a card that occurs once and sits at a removed position is no longer on the board |
| `Board.RemoveDescending` | set-game-multiplayer/server/gameManager.js:177-180 | the splice loop over descending indices removes exactly those positions and keeps the rest in order |
| `Selection.IndexOf` | set-game-multiplayer/server/gameManager.js:142 | `indexOf`: the first position holding the value, or -1 exactly when it is absent |
| `Selection.Toggle` | set-game-multiplayer/server/gameManager.js:141-151 | a click fails only when the position is not held and three are already held |
| `Selection.SpliceMembership` | set-game-multiplayer/server/gameManager.js:144 | splicing out a held position removes exactly that value from a duplicate-free selection |
| `Selection.ToggleFlipsMembership` | set-game-multiplayer/server/gameManager.js:141-151 | a successful click flips the membership of the clicked position and of nothing else |
| `Selection.SpliceKeepsOk` | set-game-multiplayer/server/gameManager.js:144 | splicing keeps a selection short, duplicate-free and in range |
| `Selection.PushKeepsOk` | set-game-multiplayer/server/gameManager.js:146-147 | pushing a new in-range position onto fewer than three keeps the selection well formed |
| `Selection.TogglePreservesOk` | set-game-multiplayer/server/gameManager.js:141-153 | a selection never holds more than three positions or a duplicate |
| `Selection.ToggleTwice` | set-game-multiplayer/server/gameManager.js:142-147 | clicking a new position twice restores the selection |
| `Selection.SortDescending` | set-game-multiplayer/server/gameManager.js:177 | sorting three distinct positions with `(a, b) => b - a` gives the same positions, strictly decreasing |
| `Search.FindSets` | set-game-multiplayer/server/gameManager.js:221-234 | returns exactly the triples i < j < k on the board whose cards form a set, in ascending lexicographic order |
| `Manager.PlayerColor` | set-game-multiplayer/server/gameManager.js:69-72 | the colour is one of the six palette slots |
| `Manager.PlayerColorCycle` | set-game-multiplayer/server/gameManager.js:69-72 | six consecutive joiners get six different colours and the seventh repeats the first |
| `Manager.FindPlayer` | set-game-multiplayer/server/gameManager.js:168 | `find` by id: the first player with that id, or -1 exactly when there is none |
| `Manager.WinnerIndex` | set-game-multiplayer/server/gameManager.js:265-267 | the `reduce` picks a player with the top score, and the first such player |
| `Manager.WithoutPlayer` | set-game-multiplayer/server/gameManager.js:288 | `filter` keeps exactly the players with another id, each as often as it occurs |
| `Manager.WithoutPlayerAppend` | set-game-multiplayer/server/gameManager.js:288 | `filter` works element by element: filtering a concatenation concatenates the filtered parts, so join order is kept |
| `Manager.ResetScores` | set-game-multiplayer/server/gameManager.js:86 | every player keeps everything but the score, which becomes 0 |
| `Manager.RefillSize` | set-game-multiplayer/server/gameManager.js:183-184 | with three cards in the deck a board of at most twelve returns to its size after a set, and a larger board shrinks towards twelve |
| `Manager.MatchedCardsLeave` | set-game-multiplayer/server/gameManager.js:176-184 | the three matched cards are neither left on the board nor dealt back from the deck |
| `Manager.RefillKeepsNoRepeats` | set-game-multiplayer/server/gameManager.js:178-184 | removing cards and dealing from the deck never makes a card appear twice |
| `Manager.AfterSetScores` | set-game-multiplayer/server/gameManager.js:174-175 | a valid set gives its caller exactly one point and changes no other player |
| `Manager.AfterSetSizes` | set-game-multiplayer/server/gameManager.js:177-184 | three cards leave the board; the refill only moves cards from deck to board, by `min(3, 12 - board length, deck length)`; with three cards in the deck a board of at most twelve keeps its size, and with fewer the whole deck goes onto the board |
| `Manager.AfterSetNoRepeats` | set-game-multiplayer/server/gameManager.js:177-184 | after a valid set no card is in deck and board together more than once |
| `Manager.AfterSetDropsMatched` | set-game-multiplayer/server/gameManager.js:176-184 | after a valid set none of the three matched cards is on the board |
| `Manager.SelectedSetOnBoard` | set-game-multiplayer/server/gameManager.js:187 | three distinct board positions holding a set mean the board has a set triple for `findSets` to report |
| `Manager.AfterSetGameOver` | set-game-multiplayer/server/gameManager.js:186-189 | on a room whose finished game has no set left, a set can only be taken while the game runs, and afterwards the game is over exactly when the deck is empty and no set is left |
| `Manager.TakeSet` | set-game-multiplayer/server/gameManager.js:172-190 | the valid-set branch (score, sort, splice, refill, game-over test) computes exactly `AfterSet`, whose game-over flag becomes set only when the deck is empty and no set is left |
| `Manager.SweepDropsLiveMapping` | set-game-multiplayer/server/gameManager.js:16-18 | a player listed in a stale room whose mapping points at a live room loses that mapping in the sweep; the intended sweep keeps it |
| `Manager.SweptMappingsKeepsLive` | set-game-multiplayer/server/gameManager.js:15-18 | the intended sweep keeps every mapping to a surviving room, and every mapping it keeps points at a surviving room or at no stored room |
| `Manager.ForgetPlayers` | set-game-multiplayer/server/gameManager.js:16-18 | the inner loop deletes the mappings of exactly the room's players |
| `Manager.GameManager.constructor` | set-game-multiplayer/server/gameManager.js:2-9 | starts with no rooms and no player mappings |
| `Manager.GameManager.GetRoom` | set-game-multiplayer/server/gameManager.js:44-46 | the room stored under the id, or none exactly when there is none; the room carries that id |
| `Manager.GameManager.GetRoomCount` | set-game-multiplayer/server/gameManager.js:48-50 | the number of rooms; zero exactly when there are none |
| `Manager.GameManager.CreateRoom` | set-game-multiplayer/server/gameManager.js:25-38 | stores an empty, unstarted room under the given id, replacing any room with that id, and returns the id |
| `Manager.GameManager.AddPlayerToRoom` | set-game-multiplayer/server/gameManager.js:52-67 | a missing room gives null and changes nothing; otherwise a player with score 0 and the next palette colour is appended and mapped to the room |
| `Manager.GameManager.StartGame` | set-game-multiplayer/server/gameManager.js:74-90 | a missing room is left alone; otherwise the deck is 69 cards of a full shuffled deck, the board its last 12 in popping order, scores are 0, selections are empty, the game is started and not over |
| `Manager.GameManager.SelectCard` | set-game-multiplayer/server/gameManager.js:127-156 | "Game not started", "Invalid card index" and "Already selected 3 cards" in that order, the activity time recorded from the second check on, otherwise the toggled selection is stored and returned |
| `Manager.GameManager.CheckSet` | set-game-multiplayer/server/gameManager.js:158-201 | when the room is missing or the player has not selected exactly three positions, nothing changes; otherwise the pre-removal cards are judged, a set is taken as in `AfterSet`, a non-set changes nothing but the selections, and every selection in the room is cleared |
| `Manager.GameManager.GetHint` | set-game-multiplayer/server/gameManager.js:236-242 | null for a missing room or a board without sets; otherwise a set triple that comes before every other one |
| `Manager.GameManager.Add3Cards` | set-game-multiplayer/server/gameManager.js:244-256 | "Room not found" or "Not enough cards in deck" with nothing changed; otherwise the last three deck cards move onto the board |
| `Manager.GameManager.GetGameState` | set-game-multiplayer/server/gameManager.js:258-280 | the snapshot shows the room's id, players, board, deck size, flags and selections, and a winner exactly when the game is over and someone plays: the first player holding the top score, as the strict `>` of the `reduce` keeps the earlier player on a tie |
| `Manager.GameManager.RemovePlayer` | set-game-multiplayer/server/gameManager.js:282-299 | an untracked player gives null and changes nothing; otherwise the mapping goes, the player and its selection leave the room, an emptied room is deleted, and the room id is returned |
| `Manager.GameManager.CleanupStaleRooms` | set-game-multiplayer/server/gameManager.js:11-23 | deletes exactly the rooms idle for more than two hours and the mappings of their players; other rooms are untouched |

## Findings

| source | as written | input that shows it | evidently intended | confidence | as-written member | corrected member |
|---|---|---|---|---|---|---|
| set-game-multiplayer/server/gameManager.js:16-18 | the sweep deletes the mapping of every player listed in a stale room, whatever room the mapping points at | player X joins room R1 and then room R2 (line 64 repoints X to R2, but X stays in R1's list); R1 goes stale while R2 is live; the sweep deletes X's mapping, so `removePlayer(X)` returns null and X stays in R2 | forget only the mappings that point at a deleted room | not executed; medium | `Manager.SweepDropsLiveMapping` | `Manager.SweptMappingsKeepsLive` |

`Manager.GameManager.CleanupStaleRooms` keeps the behaviour as written, because it models the
server's sweep. The intended sweep is the definition `Manager.SweptMappings`.

## Left out

- The five-minute `setInterval` timer that calls `cleanupStaleRooms` is not modelled. The
  clock is the `now` parameter.
- `generateRoomId` is not modelled. The caller supplies the room id, and there is no
  collision check to model.
- `Math.random` in the shuffle is not modelled. The shuffle takes the drawn indices as
  `picks`.
- Deck.ShuffleArray: proves that the result is a permutation and is the Fisher-Yates
  result for the given indices. It does not prove that the shuffle is uniform.
- `console.log` and the hexadecimal colour strings are left out. A player's colour is its
  palette slot, `index % 6`.
- The Socket.IO server in `index.js` is not part of this model. That covers transport,
  broadcasts, delays and its six-player cap on joining.
- Manager.GameManager.CheckSet: requires that the player is in the room when the room
  exists and the selection holds three positions. The source reads `player.name` there
  without a check and would throw.
- `getRoom` and `getGameState` hand out live references to the stored room. The model
  returns values, so later aliasing through those references is not captured.
- Manager.GameManager.SelectCard: takes the card index as an integer. The source compares
  whatever value arrives, and a fractional index would be stored as is.
- Manager.GameManager.CleanupStaleRooms: visits the rooms in an arbitrary order instead
  of `Map` insertion order. The result does not depend on the order.
- Scores are unbounded natural numbers, and times are unbounded integers.
