# Spot the Spy: lobby and role assignment

This project models the lobby and role-assignment part of the Spot the Spy
Discord bot, then proves properties of that model. The model is written in
Dafny and covers:

- the handler branches of `app.js`: `/start`, `/cancel`, and the join, leave
  and start_game buttons;
- the helpers from `utils.js` that those branches use: `shuffleArray` and
  the string format of `generateUniqueGameId`;
- the `utils.js` helper `capitalize`, which command registration in
  `commands.js` uses (commands.js:3, 13). The handlers do not use it.

The tables that `database.js` creates are modelled in memory, as the fields
of the class `Lobby.Store`:

- `games` is the `active_games` table (game id, host, max_players), kept in
  insertion order (an assumption; see "## Left out").
- `rosters` is `joined_users`: for each game id, the joined usernames in
  insertion order.
- `roles` is the role written for each joined user by `assignRoleToUser`.
  It is treated as a column of that user's `joined_users` row (see
  "## Left out").
- `messages` maps each host to the response token of their `/start`
  interaction. It is keyed by host, as the calls at app.js:139, 236-239 and
  274 use it (see "## Left out").

Each handler is one atomic method of `Store`. It returns `Done` or one
`Rejected(reason)`, and changes the tables as the handler does, under the
assumptions about the database functions listed below.
Every rejection leaves the store unchanged.

Behaviour of the code that the model keeps on purpose:

- **Row 0 of the table.** `getActiveGames` ignores its game-id argument and
  returns every row. So the join, leave and start_game buttons read the
  first game in `active_games`, not the clicked one.
  - Join compares the roster with row 0's `max_players`.
  - An empty table makes `activeGamesData[0]` undefined. The button then
    raises an uncaught TypeError before anything is written. The model
    reports this as `Rejected(NoGameRow)`.
  - The start_game host check passes when the clicker hosts *any* active
    game.
  - `SingleGameTable` proves that with one game in the table, this is the
    same as looking the game up by id. `FirstRowIsNotTheClickedGame` and
    `JoinUsesTheFirstRowLimit` show what goes wrong with two games: bob's
    lobby for 10 players is full at 4, because alice's row comes first.
    `JoinOverfillsSmallLobby` shows the other direction: behind alice's
    10-player row, bob's 4-player lobby takes a fifth player. So "a roster
    never exceeds its own game's max_players" is not something the join
    button keeps.
- **Stale ids.** Join does not check that the clicked id still has a row.
  So a join on a cancelled game's button appends under that id. The foreign
  key declared at database.js:15 does not stop this, because SQLite enforces
  foreign keys only after `PRAGMA foreign_keys = ON`, which the code never
  issues.
- **Roles.** Start_game always deals exactly one spy (code 2) and one mole
  (code 3). Everyone else is an investigator (code 1). The number of players
  does not change this.
- **Missing token.** `/cancel` returns silently when the response token
  stored for the host is missing or empty (`!token` at app.js:240 is true for
  both). The model reports this as `Rejected(NoResponseToken)` and changes
  nothing. `CancelWithEmptyToken` shows a host whose `/start` stored `""`
  cannot cancel that game.

`app.js` always deals one spy and one mole. It has no per-bracket role
table, no location lists, no session state, no confirmation step and no
role-reveal handler. The "Show my Role" button is created at app.js:499,
but no handler for it exists, so it is not modelled.

Randomness and the clock are parameters:

- `Store.StartGame` and `ShuffleArray` take `picks`. `picks[i]` is the index
  that `Math.floor(Math.random() * (i + 1))` draws at loop step `i`, so
  `0 <= picks[i] <= i`.
- `Store.Start` takes the timestamp and the random suffix of
  `generateUniqueGameId`.

The bodies of `insertMessageData`, `insertActiveGame`, `insertJoinedUser`,
`getJoinedUsers`, `deleteActiveGame`, `deleteJoinedUsers`,
`deleteMessageWithToken`, `getResponseToken` and `assignRoleToUser` are not
part of this model. The model assumes each one does what its name and its
call site say:

- join appends one row;
- leave deletes that user's rows under that game id;
- cancel deletes all rows of the game;
- `assignRoleToUser` sets one user's role under one game id.

The assumptions with the most weight are spelled out under "## Left out":
where roles are stored, how `deleteJoinedUsers` treats its optional third
argument, how the messages table is keyed, the order in which rows come
back, and the unenforced foreign key.

## Model

| member | source | states |
|---|---|---|
| Utils.UpperChar | utils.js:61 | lower-case ASCII letters become the matching upper-case letter; every other character is unchanged; the result is never lower case |
| Utils.Capitalize | utils.js:60-62 | length is preserved; everything after position 0 is unchanged; the first character is no longer lower case and is the upper-case form of the original; the empty string stays empty |
| Utils.CapitalizeIdempotent | utils.js:60-62 | capitalizing twice gives the same result as capitalizing once |
| Utils.Decimal | utils.js:72 | the template-literal rendering of a number is a non-empty string of decimal digits with no leading zero |
| Utils.DecimalRoundTrip | utils.js:72 | reading the rendered digits back gives the original number |
| Utils.DecimalBelowThousand | utils.js:69 | the random suffix (below 1000) renders as one to three digits |
| Utils.UniqueGameId | utils.js:72 | the id is the timestamp's rendering, then '-' at the position right after it, then the suffix's rendering |
| Utils.GameIdShape | utils.js:64-75 | a game id is the timestamp's digits, exactly one '-', then one to three digits; every other position is a digit |
| Utils.GameIdRoundTrip | utils.js:64-75 | parsing a generated id gives back its timestamp and suffix |
| Utils.GameIdInjective | utils.js:64-75 | different (timestamp, suffix) pairs give different ids |
| Utils.Swap | utils.js:127 | the destructuring swap exchanges positions i and j and leaves every other position alone |
| Utils.SwapPermutes | utils.js:127 | a swap keeps the multiset of elements |
| Utils.ShuffleFrom | utils.js:125-128 | running the loop steps from i down to 1 keeps the length and never touches a position above i |
| Utils.ShuffleFromPermutes | utils.js:125-128 | the loop's remaining steps map the array to a permutation of itself of the same length |
| Utils.ShuffleFromDistinct | utils.js:125-128 | the loop's remaining steps introduce no repetition into a sequence that has none |
| Utils.Shuffled | utils.js:123-130 | what shuffleArray returns has the input's length and the same elements with the same multiplicities |
| Utils.ShuffledDistinct | utils.js:123-130 | shuffling a sequence without repetitions introduces none |
| Utils.ShuffleArray | utils.js:123-130 | returns a fresh array equal to the shuffle of the input; it has the same length and is a permutation; the input array is not modified |
| Lobby.Role.Code | app.js:521-533 | code 1 exactly for an investigator, 2 exactly for the spy, 3 exactly for the mole, so the three codes differ |
| Lobby.HostsSomeGame | app.js:122-124 | walking the rows from the front (as `some` does) says true exactly when some row has the user as host; the same test is at app.js:221-223 and 463-465 |
| Lobby.HostIndex | app.js:246 | `games.find` by host gives the first row the host owns |
| Lobby.SingleGameTable | app.js:459-465 | when the table holds only the clicked game, row 0 is the lookup by id, and "hosts some game" means "hosts this game" |
| Lobby.FirstRowIsNotTheClickedGame | database.js:28-30 | in every table with unique hosts and ids, for every game k other than row 0: the lookup by k's id finds game k, row 0 is a different game, and row 0's host passes the host check for game k without hosting it |
| Lobby.RemoveAt | app.js:250 | `deleteActiveGame` removes row k and nothing else: one row fewer, rows before k unchanged, rows after k shifted down by one |
| Lobby.RemoveHostRow | app.js:246-251 | deleting the host's row keeps hosts and ids unique and max_players in range, and leaves the host with no game |
| Lobby.DropGame | app.js:253-254 | deleting a game's joined users keeps rosters duplicate-free and roles stored only for joined users |
| Lobby.Without | app.js:428-429 | after leaving, the user is absent and every other user is still present |
| Lobby.WithoutDistinct | app.js:428-429 | on a duplicate-free roster, leaving removes exactly the user's one position; the others keep their order and the size drops by one |
| Lobby.LeaveUndoesJoin | app.js:372-373 | appending a newcomer (join) and then removing them (leave) gives back the roster |
| Lobby.RoleAt | app.js:521-533 | the code written for shuffled position k is 2 at position 0, 3 at position 1 and 1 from position 2 on |
| Lobby.Assignment | app.js:521-533 | exactly the roster members get a role; on a roster without repetitions, position 0 is the spy, position 1 the mole, every later position an investigator |
| Lobby.AssignmentRoles | app.js:515-533 | every roster member gets exactly one role; the spy and the mole are two different members; the other n-2 members are investigators |
| Lobby.InvestigatorCount | app.js:529-533 | exactly n-2 members are investigators |
| Lobby.ShuffledRoster | app.js:515-518 | the shuffled roster holds the same users, still without repetitions |
| Lobby.Store.Roster | app.js:332 | `getJoinedUsers` gives no users for an id with no rows, and in a valid store no user twice |
| Lobby.Store.constructor | database.js:2-25 | on a new database file all tables start empty and the store invariant holds |
| Lobby.Store.Start | app.js:109-212 | rejected, with nothing changed, when any row has the caller as host; otherwise adds exactly one row (new id, caller as host, the given max_players), makes the new game's roster exactly [host], and stores the token; keeps one game per host |
| Lobby.Store.Cancel | app.js:214-283 | rejected when the caller hosts no game; nothing changes when the stored token is missing or empty; otherwise deletes exactly that host's row, its roster, its roles and the host's token, leaving other games and rosters untouched |
| Lobby.Store.Join | app.js:324-398 | rejected when the user is already in the roster, when the table is empty, or when the roster size is at least row 0's max_players, in each case with nothing changed; otherwise appends the user; on success the size is at most row 0's max_players |
| Lobby.Store.Leave | app.js:400-452 | rejected when the user is not in the roster, or when the table is empty; otherwise removes exactly that user, keeps the others in order, and drops the user's stored role |
| Lobby.Store.AssignRole | app.js:523 | writes one user's role under one game id and nothing else |
| Lobby.Store.AssignRoles | app.js:521-533 | after the spy, mole and investigator loop, the game's role map is the assignment of the shuffled roster |
| Lobby.Store.DealRoles | app.js:514-533 | shuffles the roster with the supplied draws and stores its assignment; all other tables are unchanged |
| Lobby.Store.StartGame | app.js:454-553 | rejected when the table is empty or the clicker hosts no game; rejected when the roster has fewer than 4 users; no role is written on any rejection; otherwise every roster member gets exactly one role (one spy, one different mole, n-2 investigators) and membership is unchanged |
| Lobby.StartThenCancel | app.js:109-283 | for a host with no game and no stored token, /start with a non-empty token followed by /cancel succeeds twice and restores every table |
| Lobby.CancelWithEmptyToken | app.js:236-243 | after /start stores an empty token, /cancel is turned away with nothing deleted: the host's game is still row 0 |
| Lobby.OpenTwoLobbies | app.js:109-156 | two hosts open lobbies with the given limits; row 0 is alice's game with her id and limit, row 1 is bob's game, and bob's roster is [bob] |
| Lobby.JoinUsesTheFirstRowLimit | app.js:349-362 | bob's lobby (max 10) rejects a fifth player as full, because row 0 belongs to alice (max 4) |
| Lobby.JoinOverfillsSmallLobby | app.js:349-373 | behind alice's 10-player row, a fifth join on bob's 4-player lobby succeeds and bob's roster holds 5 users |

## Left out

- The Express server, request parsing and signature verification (`VerifyDiscordRequest`). Signature verification is a foreign call to `verifyKey`.
- `DiscordRequest`, `updateMessage`, `sendFollowUpMessage`, `DeleteFollowUpMessage` and `InstallGlobalCommands`. These are network calls whose errors are logged and swallowed. They change no table.
- Everything the handlers send back to Discord: reply text, components and the rendered roster. Each reply becomes an `Outcome`.
- The `test` and `database_test` commands, `getRandomEmoji`, the unused in-memory `activeGames` object, command registration in commands.js, and `getRPSChoices` from game.js. game.js is not part of this model. From commands.js, only the 4..10 range of `players` is kept, as a precondition of `Store.Start`.
- The message id that `/start` passes to `insertMessageData` and `insertActiveGame`. No modelled handler reads it back.
- The SQL layer and its errors. The tables are in memory, and each handler runs atomically. Interleaving between concurrent asynchronous handlers is not modelled.
- `Math.random` and `Date`. Their values are parameters. `Store.Start` requires a game id that does not already occur in any table, which is what `generateUniqueGameId` is relied on to provide.
- Utils.ShuffleArray: does not state that every permutation is equally likely. The random draws are inputs, so the model proves only that each run of the loop gives a permutation.
- Utils.UpperChar: maps only the ASCII letters a-z, where `toUpperCase` maps every lower-case Unicode letter.
- Utils.Capitalize: models `toUpperCase` for ASCII letters only. Unicode case mapping, which can change the length (for example 'ß' becomes "SS"), is not modelled. Neither are UTF-16 surrogate pairs, which `charAt(0)` would split.
- Utils.Decimal: renders every natural number as plain digits. JavaScript switches to exponent notation from 10^21 on, which millisecond timestamps do not reach.
- The "Show my Role" button (app.js:499). It is created, but app.js has no handler for it.
- Where roles are stored. The joined_users schema at database.js:12-17 has no role column, and the body of `assignRoleToUser` is not part of this model. The model assumes that `assignRoleToUser` writes a role column of the user's joined_users row, so a role goes away with that row. This is why Leave drops the user's role, why Cancel drops the game's roles, and why `RolesWithinRosters` holds. If roles lived in a separate table, a departed user's stale role would survive, and start_game's "exactly one spy" would hold only for the roles it has just written.
- The arity of `deleteJoinedUsers`. It is called with (db, gameId) at app.js:254 and with (db, gameId, userId) at app.js:429. The model assumes the three-argument call deletes only that user's rows. Two other readings are possible. A body that ignores the third argument, as `getActiveGames` ignores its extra argument at database.js:28, would make the leave button empty the whole roster. A body that always filters on the username would compare against `undefined` in the two-argument call at app.js:254 and delete nothing, so `/cancel` would leave the game's joined_users rows behind.
- How the messages table is keyed. Its schema at database.js:19-24 has only `message_id` and `response_token`, and the bodies of `insertMessageData`, `getResponseToken` and `deleteMessageWithToken` are not part of this model. Those three are called with the host (app.js:139, 236-239, 274), so the model keys tokens by host. The message id that `insertMessageData` also receives is dropped. A second `/start` write for the same host replaces the earlier token. A table keyed by `message_id` would keep both rows instead. This cannot happen while the host still has a game, because `/start` rejects such a host first.
- Row order. `SELECT * FROM active_games` at database.js:30 has no `ORDER BY`. So "row 0 is the oldest game" assumes that SQLite returns a plain table scan in rowid order, which usually matches insertion order. Neither SQL nor the code guarantees it. The first-row behaviour (`FirstRowIsNotTheClickedGame`, `OpenTwoLobbies`, `JoinUsesTheFirstRowLimit`) depends on this order. So does the roster order that `getJoinedUsers` returns and that the shuffle starts from.
- Foreign keys. The `FOREIGN KEY (game_id) REFERENCES active_games (game_id)` at database.js:15 is not modelled. SQLite does not enforce it unless `PRAGMA foreign_keys = ON` is issued, and the code never issues it. So a join under a cancelled game's id succeeds.
- Earlier runs' rows. app.js:39 opens the persistent file `./database.sqlite3`, and `CREATE TABLE IF NOT EXISTS` keeps whatever rows an earlier run left there. `Store.constructor` models only a new file. Every handler requires only the store invariant, not an empty start, so a file left in a valid state is covered. A file whose rows break the invariant (two games for one host, say) is not.
