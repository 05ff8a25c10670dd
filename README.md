# Masquerade lobby: roster and ready-up rule

This project models the client-side lobby of the Masquerade party game
(`LobbyComponent` of the Angular client). It covers the roster of players the
server sends, the local player's ready toggle, the ready counter, and the
"everyone is ready" guard that asks for the switch to the mask-draw phase.

- `Decimal` renders a roster index as text, the way the template literal
  `player${i}` does. It also parses that text back, so generated ids are
  provably distinct.
- `Lobby` holds the `Player` record and the pure roster functions:
  `RosterFromNames`, `ReadyCount`, `AllPlayersReady`, `FirstIndexOf` (the
  `find` lookup) and `Toggled` (the flag flip).
- `Lobby.View` is the component's observable state: roster, own id and the
  mirrored ready flag. `AfterToggle` is the state `toggleReady` leaves behind.
- `Lobby.LobbyComponent` is the component as a class with the fields
  `players`, `currentPlayerId` and `currentPlayerReady`. `LoadRoster`
  replaces the roster. `ToggleReady` performs the toggle and returns whether
  the mask-draw phase is to be requested. That boolean stands for the 800 ms
  timer that sets the application state.

Three behaviours of the code, as written, are worth knowing:

- The component starts with the id `player1`, but generated ids begin at
  `player0`. Its own player is therefore the second roster entry, and with
  fewer than two players the toggle finds nobody (`OwnPlayerLookup`).
- In the code modelled here, only the own toggle ever sets a `ready` flag,
  and the own id never changes. So the entry `player0` is never ready, the
  all-ready guard never holds, and the mask-draw phase is never requested
  (`Reachable`, `ReachableNeverAllReady`, `ToggleSession`). Other code could
  still change the roster objects, for instance the component's HTML
  template, which is not part of this model.
- A roster load resets every `ready` flag but leaves `currentPlayerReady` as
  it was. After a toggle and a reload, the mirror can disagree with the
  roster (`ReloadCanDesync`). Toggling twice restores the whole state exactly
  when the mirror agreed beforehand (`ToggleTwiceRestores`). Every toggle
  re-establishes agreement (`AfterToggleInSync`).

## Model

| member | source | states |
|---|---|---|
| `Decimal.NatToString` | Masquerade-Angular/Masquerade-Client/src/app/lobby/lobby.component.ts:36 | the index text is non-empty, all digits, and has no leading zero |
| `Decimal.ParseNatToString` | Masquerade-Angular/Masquerade-Client/src/app/lobby/lobby.component.ts:36 | parsing the rendered index gives the index back (round trip) |
| `Decimal.NatToStringInjective` | Masquerade-Angular/Masquerade-Client/src/app/lobby/lobby.component.ts:36 | distinct indices render to distinct texts |
| `Lobby.PlayerIdInjective` | Masquerade-Angular/Masquerade-Client/src/app/lobby/lobby.component.ts:36 | ids `player<i>` for distinct positions are distinct |
| `Lobby.RosterFromNames` | Masquerade-Angular/Masquerade-Client/src/app/lobby/lobby.component.ts:36 | built with `PlayerId` (the text `player` followed by the index); the roster has one entry per name, names in order, id `player<i>` at position i, role `Mask Maker`, not ready |
| `Lobby.RosterIdsDistinct` | Masquerade-Angular/Masquerade-Client/src/app/lobby/lobby.component.ts:36 | a freshly built roster has no two players with the same id |
| `Lobby.FreshRosterNotReady` | Masquerade-Angular/Masquerade-Client/src/app/lobby/lobby.component.ts:36 | a fresh roster has ready count 0 and is not all-ready |
| `Lobby.RosterLookup` | Masquerade-Angular/Masquerade-Client/src/app/lobby/lobby.component.ts:36 | in a fresh roster, looking up `player<i>` finds exactly position i |
| `Lobby.OwnPlayerLookup` | Masquerade-Angular/Masquerade-Client/src/app/lobby/lobby.component.ts:25 | the initial own id `player1` finds position 1 of a fresh roster of two or more players, and nobody in a shorter one |
| `Lobby.ReadyCount` | Masquerade-Angular/Masquerade-Client/src/app/lobby/lobby.component.ts:68-70 | the count is between 0 and the roster length; it equals the length iff all are ready and 0 iff none is |
| `Lobby.AllPlayersReady` | Masquerade-Angular/Masquerade-Client/src/app/lobby/lobby.component.ts:64-66 | false on an empty roster; true iff the roster is non-empty and the ready count equals its length |
| `Lobby.FirstIndexOf` | Masquerade-Angular/Masquerade-Client/src/app/lobby/lobby.component.ts:50 | None iff no player has the id; otherwise the index holds the id and no earlier player does |
| `Lobby.Toggled` | Masquerade-Angular/Masquerade-Client/src/app/lobby/lobby.component.ts:50-52 | length, ids, names and roles unchanged; only the first matching player's flag flips; unchanged roster when nobody matches |
| `Lobby.ReadyCountUpdate` | Masquerade-Angular/Masquerade-Client/src/app/lobby/lobby.component.ts:69 | replacing one entry shifts the ready count by the difference of the two flags |
| `Lobby.ToggledReadyCount` | Masquerade-Angular/Masquerade-Client/src/app/lobby/lobby.component.ts:50-52 | a toggle of a found player moves the ready count by exactly +1 or -1; no match leaves it alone |
| `Lobby.ToggledInvolution` | Masquerade-Angular/Masquerade-Client/src/app/lobby/lobby.component.ts:52 | toggling twice gives back the roster |
| `Lobby.ToggledAllReady` | Masquerade-Angular/Masquerade-Client/src/app/lobby/lobby.component.ts:57 | after toggling a found player, all are ready iff that player was not ready before and every other player was |
| `Lobby.AfterToggle` | Masquerade-Angular/Masquerade-Client/src/app/lobby/lobby.component.ts:49-54 | the roster becomes the toggled roster and the own id stays; a found player's new flag is mirrored into `currentPlayerReady`; nothing changes when nobody matches |
| `Lobby.AfterToggleInSync` | Masquerade-Angular/Masquerade-Client/src/app/lobby/lobby.component.ts:53 | after any toggle `currentPlayerReady` equals the current player's flag |
| `Lobby.ToggleTwiceRestores` | Masquerade-Angular/Masquerade-Client/src/app/lobby/lobby.component.ts:49-54 | two toggles always restore the roster, and restore the whole state iff the mirror agreed beforehand |
| `Lobby.ReloadCanDesync` | Masquerade-Angular/Masquerade-Client/src/app/lobby/lobby.component.ts:36 | a toggle followed by a reload of the same names leaves the mirror true while the player's flag is false |
| `Lobby.InitialReachable` | Masquerade-Angular/Masquerade-Client/src/app/lobby/lobby.component.ts:24-26 | the initial state (empty roster, own id `player1`, not ready) is reachable |
| `Lobby.LoadPreservesReachable` | Masquerade-Angular/Masquerade-Client/src/app/lobby/lobby.component.ts:36 | a roster load keeps the state reachable: ids by position, nobody ready |
| `Lobby.TogglePreservesReachable` | Masquerade-Angular/Masquerade-Client/src/app/lobby/lobby.component.ts:49-54 | a toggle keeps the state reachable: the only entry it can flip is position 1 |
| `Lobby.ReachableNeverAllReady` | Masquerade-Angular/Masquerade-Client/src/app/lobby/lobby.component.ts:64-66 | in a reachable state the all-ready guard is false |
| `Lobby.LobbyComponent.constructor` | Masquerade-Angular/Masquerade-Client/src/app/lobby/lobby.component.ts:24-26 | empty roster, own id `player1`, not ready, mirror in agreement, state reachable |
| `Lobby.LobbyComponent.LoadRoster` | Masquerade-Angular/Masquerade-Client/src/app/lobby/lobby.component.ts:35-37 | the roster becomes the one built from the names; own id and mirror are unchanged; a reachable state stays reachable |
| `Lobby.LobbyComponent.ToggleReady` | Masquerade-Angular/Masquerade-Client/src/app/lobby/lobby.component.ts:49-62 | the new state is `AfterToggle` of the old; mask-draw is requested iff the new roster is all-ready, whether or not a player was found; from a reachable state the result stays reachable and no request is made |
| `Lobby.ToggleSession` | Masquerade-Angular/Masquerade-Client/src/app/lobby/lobby.component.ts:33-61 | a fresh component that loads a roster and then toggles any number of times never requests the mask-draw phase |

## Left out

- The connection to the game hub, the roster subscription and the game-id request in `ngOnInit` are network I/O. Only the mapping from names to players is modelled; `LoadRoster` stands for one delivery of the subscription.
- The 800 ms timer and the application-state change to the mask-draw phase are a timer and an external service. `ToggleReady` returns the boolean that decides whether they are started.
- `joinMainGameRoom`, `leaveGame` and `sendMessage` are empty or only log, so they have no model.
- The source flips `ready` on a `Player` object held inside the roster array. The model replaces that entry in a sequence instead. Each roster load builds fresh objects that nothing else references, so no aliasing is lost. Angular's signal is not notified of this in-place change; change detection is not modelled.
- The game hub test page, the hub client service, the server hub, the server bootstrap and the routes are not part of this model. The server-side session registry and phase machine are only referenced by the server bootstrap, and their code is not part of this model either.
- `Lobby.ToggleTwiceRestores`: `currentPlayerReady` comes back after two toggles only when it agreed with the player's flag beforehand, so the lemma is stated as an if-and-only-if rather than unconditionally.
