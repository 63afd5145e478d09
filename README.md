# ManyScore: record store and new-game setup, in Dafny

ManyScore keeps score of card games ("manillen") for 2, 3 or 4 players. This
project models two parts of it:

- **The record store** (`utils/storage.ts`). Players and games are each kept as
  one list under a storage key, and a record is identified by its `id`.
  `savePlayer`/`saveGame` insert or replace by id, `getGame` finds the first
  game with an id, and `deleteGame` filters an id out. A key that was never
  written reads as the empty list. The list logic is written once, generically
  over a key function (module `Records`), and used by the class
  `Storage.Store`. Its methods replace the stored lists and are specified by
  those functions.
- **The new-game setup screen** (`app/games/new.tsx`). The class
  `NewGame.Screen` holds the player count, the known players, the player
  chosen for each slot, the name typed for a new player and the error message.
  Its methods are the screen's handlers: choose a player for a slot, change
  the count, create a player, create the game. `Teams` gives each slot its
  team badge. `Text` models JavaScript's `trim`, which the blank-name check
  uses.

A selection is a `seq<Option<Player>>`. Choosing a slot past the end of the
selection grows it and leaves the slots in between empty, as assigning past
the end of a JavaScript array does. The intended invariant is that filled slots
hold players with pairwise distinct ids. Every screen method keeps it
(`Screen.Valid`).

One might expect game creation to start the game with one open round and to
insist on `playerCount` distinct player ids. The code builds a game with an
empty `rounds` list and only compares lengths, and the model follows the code. Two places where the code does not do what it evidently intends are
under "Findings". `NewGame` models the intended behaviour and `AsWritten`
models the code as written.

Files: `wrappers.dfy` (Option), `records.dfy`, `storage.dfy`, `text.dfy`,
`teams.dfy`, `new_game.dfy`, `as_written.dfy`.

## Model

| member | source | states |
|---|---|---|
| Records.Find | utils/storage.ts:74 | `find` by id returns a record with that id taken from the list, and returns none exactly when no record has the id |
| Records.FindIsFirst | utils/storage.ts:74 | the record `find` returns is the one at the first position whose id matches |
| Records.FindAppend | utils/storage.ts:92 | after appending a record, `find` still returns an earlier match if there is one, and otherwise returns the appended record only if its id matches |
| Records.ReplaceByIdAt | utils/storage.ts:87-89 | the `map` replacement puts the new record exactly at the positions whose id matches and keeps every other entry |
| Records.ReplaceByIdFindOther | utils/storage.ts:87-89 | replacing by one id does not change what `find` returns for another id |
| Records.ReplaceById | utils/storage.ts:47-49 | the `map` keeps the length, and every entry is either the saved record or the entry that was there |
| Records.Upsert | utils/storage.ts:44-52 | a save (players and games alike, also lines 84-92) grows the list by at most one, keeps every entry with another id at its position, and adds nothing except the saved record |
| Records.UpsertExisting | utils/storage.ts:84-90 | saving a record whose id is present keeps the length and order and replaces exactly the entries with that id |
| Records.UpsertAbsent | utils/storage.ts:91-92 | saving a record whose id is absent gives the old list with the record appended at the end |
| Records.UpsertThenFind | utils/storage.ts:74 | round trip: after saving a record, finding its id returns that record |
| Records.UpsertFindOther | utils/storage.ts:84-92 | saving a record does not change what `find` returns for any other id |
| Records.UpsertKeepsDistinct | utils/storage.ts:84-92 | if the stored ids are pairwise distinct before a save, they are pairwise distinct after it |
| Records.UpsertIdempotent | utils/storage.ts:84-92 | saving the same record twice gives the same list as saving it once |
| Records.RemoveById | utils/storage.ts:103 | the filtered list never grows, holds no record with the id, and keeps every record with another id |
| Records.RemoveAbsent | utils/storage.ts:103 | deleting an id that is not stored leaves the list unchanged |
| Records.RemoveIdempotent | utils/storage.ts:102-104 | deleting twice gives the same list as deleting once |
| Records.RemoveIsSubsequence | utils/storage.ts:103 | the records that survive a delete keep their original order |
| Records.RemoveAppend | utils/storage.ts:103 | deleting from a concatenation is the same as deleting from each part |
| Records.RemoveFindOther | utils/storage.ts:103 | deleting one id does not change what `find` returns for any other id |
| Storage.Store.constructor | utils/storage.ts:31-34 | with nothing stored, both collections read as the empty list |
| Storage.Store.GetPlayers | utils/storage.ts:31-39 | the stored player list, or the empty list when the key holds nothing |
| Storage.Store.GetGames | utils/storage.ts:61-69 | the stored game list, or the empty list when the key holds nothing |
| Storage.Store.GetGame | utils/storage.ts:71-79 | a stored game with the requested id, or none exactly when no stored game has it |
| Storage.Store.SavePlayer | utils/storage.ts:41-58 | on a successful write the players become the insert-or-replace of the player and finding its id returns it; distinct ids stay distinct; a failed write changes nothing; games untouched |
| Storage.Store.SaveGame | utils/storage.ts:81-98 | on a successful write `GetGame(g.id)` returns `g`, `GetGame` of every other id is unchanged and distinct ids stay distinct; a failed write changes nothing |
| Storage.Store.DeleteGame | utils/storage.ts:100-109 | on success no game has the id, every other id finds what it found before, the survivors keep their order, and a second delete would change nothing |
| Text.TrimStart | app/games/new.tsx:52 | leading white space is cut: the result is a suffix of the name, what was cut is white space, and it does not start with white space |
| Text.TrimEnd | app/games/new.tsx:52 | trailing white space is cut: the result is a prefix of the name, what was cut is white space, and it does not end with white space |
| Text.Trim | app/games/new.tsx:52 | the trimmed name starts and ends with a non-space character and is the piece of the name that follows the leading white space |
| Text.TrimCutsSpaceOnly | app/games/new.tsx:60 | everything `trim` cut off at either end is ECMAScript white space |
| Text.TrimBlank | app/games/new.tsx:52 | the trimmed name is empty exactly when the name is white space only |
| Text.TrimIdempotent | app/games/new.tsx:60 | trimming an already trimmed name changes nothing |
| Teams.TeamNumber | app/games/new.tsx:110-120 | the team number is 0, 1 or 2, and it is 0 (solo) exactly when the count is neither 2 nor 4 |
| Teams.TeamLabel | app/games/new.tsx:128-132 | the label is "Solo" exactly for team 0 and otherwise "Team " followed by the team number |
| Teams.TwoPlayerTeams | app/games/new.tsx:112-113 | with two players, team 1 is slot 0 alone and team 2 is slot 1 alone |
| Teams.FourPlayerTeams | app/games/new.tsx:116-117 | with four players, team 1 is slots {0, 2} and team 2 is slots {1, 3} |
| Teams.FourPlayerTeammates | app/games/new.tsx:116-117 | with four players, two slots share a team exactly when their indices have the same parity |
| Teams.SoloCounts | app/games/new.tsx:114-119 | for three players, or any count other than 2 and 4, every slot is labelled "Solo" |
| Teams.TeamCounts | app/games/new.tsx:128-131 | for two or four players every slot is labelled "Team 1" or "Team 2" |
| NewGame.AssignSlot | app/games/new.tsx:78-79 | assigning a slot sets it to the player, keeps the other slots, and past the end grows the selection with empty slots |
| NewGame.TakenElsewhere | app/games/new.tsx:73 | the duplicate test (empty slots skipped) holds exactly when the id is among the ids of the filled slots other than `index` |
| NewGame.RefusedExactlyOnDuplicate | app/games/new.tsx:72-80 | starting from distinct ids, a choice is refused exactly when accepting it would put the same player in two slots |
| NewGame.Select | app/games/new.tsx:72-80 | choosing a player is refused exactly when another filled slot holds that id; otherwise only slot `index` changes, to that player |
| NewGame.SelectKeepsDistinct | app/games/new.tsx:72-80 | an accepted choice keeps the filled slots' ids pairwise distinct |
| NewGame.Truncate | app/games/new.tsx:45-48 | changing the count keeps a prefix of the selection: `min(count, length)` slots, and for a negative count that many fewer than the length (the end index is `SliceEnd`) |
| NewGame.TruncateKeepsDistinct | app/games/new.tsx:45-48 | cutting the selection down keeps the filled slots' ids pairwise distinct |
| NewGame.Complete | app/games/new.tsx:86 | the intended guard: the selection has exactly `count` slots and none of them is empty |
| NewGame.Chosen | app/games/new.tsx:95 | the players of a fully filled selection, in slot order |
| NewGame.MakeGame | app/games/new.tsx:85-101 | a game is built exactly when all `count` slots are filled; it is a manillen game with the chosen players in slot order, one zero score per player, no rounds, not ended, and the given id and timestamps |
| NewGame.MakeGameDistinctPlayers | app/games/new.tsx:95 | a game built from a selection with distinct ids has players with distinct ids |
| NewGame.Screen.constructor | app/games/new.tsx:24-29 | the screen starts with two players, nothing selected, no known players, an empty name and no error |
| NewGame.Screen.LoadPlayers | app/games/new.tsx:36-43 | the known players become the stored players |
| NewGame.Screen.ChangePlayerCount | app/games/new.tsx:45-49 | the count is set and the selection is cut to its first `count` slots, keeping the invariant |
| NewGame.Screen.SetNewPlayerName | app/games/new.tsx:239-240 | the name field holds the typed text |
| NewGame.Screen.SelectPlayer | app/games/new.tsx:72-83 | a player already in another slot is refused with "This player is already selected" and the selection unchanged; otherwise only that slot changes and the error is cleared |
| NewGame.Screen.CreatePlayer | app/games/new.tsx:51-70 | a blank name is refused with the lists unchanged; otherwise the trimmed-name player is saved, appended to the known players, and the name and error are cleared; a failed save reports "Failed to create player" |
| NewGame.Screen.CreateGame | app/games/new.tsx:85-108 | an incomplete selection is refused with "Please select all players"; otherwise the stored games become the insert-or-replace of the built game, which can be found by its id, while the players and every other id's game are unchanged; the game has distinct player ids and is returned; a failed save reports "Failed to create game" |
| AsWritten.Spread | app/games/new.tsx:78 | the copy keeps the length and every assigned slot, and leaves no hole: each hole becomes `undefined` |
| AsWritten.Assign | app/games/new.tsx:79 | assigning sets slot `index` to the player and keeps the other slots; past the end the array grows and the slots in between are holes |
| AsWritten.SomeFrom | app/games/new.tsx:73 | the duplicate test as written returns true only when another filled slot holds the id, false only when none does, and throws exactly when it reaches an `undefined` slot other than `index` before any match |
| AsWritten.RenderThrowsAfterSecondChoice | app/games/new.tsx:197-204 | the render-time test of the menu entries returns for every slot after the first choice (`[hole, hole, a]`) and throws for slots 1 and 2 after the second (`[undefined, b, a]`) |
| AsWritten.View | app/games/new.tsx:78-79 | a JavaScript selection seen as the intended one: holes and `undefined` are empty slots, players stay in place |
| AsWritten.SomeFromWithoutUndefined | app/games/new.tsx:73 | on an array without `undefined` entries, `some` returns, and it returns true exactly when another filled slot holds the id |
| AsWritten.SelectAsWritten | app/games/new.tsx:72-80 | as written, an accepted choice puts the player in slot `index`, keeps the other assigned slots, turns every hole of the copy into `undefined`, and past the end grows the array with holes |
| AsWritten.AgreesWithoutUndefined | app/games/new.tsx:72-80 | while no slot is `undefined`, the handler as written never throws and agrees with `NewGame.Select` |
| AsWritten.ReselectThrows | app/games/new.tsx:73-79 | at the handler level, choosing slot 2, then slot 1, then slot 2 again (three players) throws a TypeError as written, while the intended model accepts it |
| AsWritten.CreateGuardAsWritten | app/games/new.tsx:86 | the length guard accepts every complete selection |
| AsWritten.IncompleteSelectionPasses | app/games/new.tsx:86-101 | with two players and only slot 1 chosen, the guard as written passes though slot 0 is empty; the intended check refuses it |

## Left out

- Reading and writing through AsyncStorage, `JSON.parse`/`JSON.stringify` and the console logging are not modelled. A stored list is held as a value. A write's success is the `writeOk` parameter of the store's methods.
- Read failures are not modelled. In the source, a failed or unparsable read makes `getPlayers`/`getGames` return the empty list, and a following save would then overwrite the stored list.
- Ids from `nanoid()` and timestamps from `new Date().toISOString()` are parameters.
- The handlers are asynchronous. Interleaved handler calls are not modelled.
- The React hooks, `useEffect`, `router.replace` after a game is saved, the JSX markup, the menu and dialog visibility flags, `getTeamColor` and the styles are not modelled.
- The screen's `gameType` choice is not modelled. `handleCreateGame` never reads it and always builds a manillen game.
- The player count is held as the parsed integer. The selector only offers "2", "3" and "4", so `parseInt` is the identity on them.
- `getTeamNumber` uses JavaScript's truncating `%` and the model uses Dafny's. The two agree on whether `index % 2` is zero, which is all the code tests.
- Rendering is not modelled. The one exception is the menu entries' `disabled` test at app/games/new.tsx:202, which runs the same `some` as the handler (`AsWritten.RenderThrowsAfterSecondChoice`).
- app/_layout.tsx, app/games/[id].tsx, app/(tabs)/stats.tsx and app/(tabs)/games/index.tsx are not part of this model. The rounds, scoring, turn order and statistics live there. The `Round` shape is declared but no operation uses it.

## Findings

| source | as written | input that shows it | evidently intended | confidence | as-written member | corrected member |
|---|---|---|---|---|---|---|
| app/games/new.tsx:86 | the guard compares `selectedPlayers.length`, which counts unassigned holes, with the player count | two players and only slot 1 chosen: `[hole, p]` has length 2, so a game is saved whose first player is missing (stored as `null`) | start a game only when every slot holds a player | high; not executed | AsWritten.CreateGuardAsWritten (counterexample AsWritten.IncompleteSelectionPasses) | NewGame.MakeGame |
| app/games/new.tsx:73 | `[...selectedPlayers]` (line 78) turns holes into explicit `undefined`; every later `some` (the handler's at line 73 and the render's at line 202) visits them and reads `p.id` of `undefined` | three players: choose slot 2, then slot 1; the render that follows throws a TypeError at line 202 for the menus of slots 1 and 2 (the handler itself would throw on a third choice of slot 1 or 2) | skip empty slots (`p?.id`), so a choice is refused only when another filled slot holds the player | high; not executed | AsWritten.SelectAsWritten (counterexamples AsWritten.RenderThrowsAfterSecondChoice, AsWritten.ReselectThrows) | NewGame.Select |
